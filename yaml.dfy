/** `escapeYaml`: the escaping applied to titles and list values placed
    between double quotes in the front matter. */
module Yaml {

  /** `s.replace(/"/g, '\\"')`: a backslash goes in front of every double
      quote; backslashes already in the text are left as they are. */
  function EscapeYaml(s: string): (r: string)
    ensures |r| == |s| + multiset(s)['"']
  {
    if s == [] then []
    else
      assert s == [s[0]] + s[1..];
      (if s[0] == '"' then ['\\', '"'] else [s[0]]) + EscapeYaml(s[1..])
  }

  /** The inverse reading: a backslash directly before a double quote is
      dropped, every other character is kept. */
  function Unescape(r: string): string
  {
    if r == [] then []
    else if |r| >= 2 && r[0] == '\\' && r[1] == '"' then ['"'] + Unescape(r[2..])
    else [r[0]] + Unescape(r[1..])
  }

  /** Dropping the inserted backslashes gives back the original text, so the
      escaping loses nothing. */
  lemma {:induction false} UnescapeEscapeYaml(s: string)
    ensures Unescape(EscapeYaml(s)) == s
  {
    if s != [] {
      UnescapeEscapeYaml(s[1..]);
      var tail := EscapeYaml(s[1..]);
      if s[0] == '"' {
        assert EscapeYaml(s) == ['\\', '"'] + tail;
        assert EscapeYaml(s)[2..] == tail;
      } else if s[0] == '\\' {
        EscapeYamlStart(s[1..]);
        assert EscapeYaml(s) == [s[0]] + tail;
        assert EscapeYaml(s)[1..] == tail;
      } else {
        assert EscapeYaml(s) == [s[0]] + tail;
        assert EscapeYaml(s)[1..] == tail;
      }
    }
  }

  /** An escaped text never starts with a bare double quote. */
  lemma EscapeYamlStart(s: string)
    ensures EscapeYaml(s) == [] || EscapeYaml(s)[0] != '"'
  {
  }

  /** Every double quote of the output is preceded by a backslash, so the
      text cannot close the surrounding quotes on a quote of its own. */
  lemma {:induction false} EscapeYamlQuotesEscaped(s: string)
    ensures var r := EscapeYaml(s);
            forall i :: 0 <= i < |r| && r[i] == '"' ==> 0 < i && r[i - 1] == '\\'
  {
    if s != [] {
      EscapeYamlQuotesEscaped(s[1..]);
      EscapeYamlStart(s[1..]);
      var tail := EscapeYaml(s[1..]);
      var head: string := if s[0] == '"' then ['\\', '"'] else [s[0]];
      var r := EscapeYaml(s);
      assert r == head + tail;
      forall i | 0 <= i < |r| && r[i] == '"'
        ensures 0 < i && r[i - 1] == '\\'
      {
        if i >= |head| {
          assert r[i] == tail[i - |head|];
          if i > |head| {
            assert r[i - 1] == tail[i - 1 - |head|];
          }
        }
      }
    }
  }

  /** A text without double quotes is emitted unchanged. */
  lemma {:induction false} EscapeYamlWithoutQuotes(s: string)
    requires '"' !in s
    ensures EscapeYaml(s) == s
  {
    if s != [] {
      assert '"' !in s[1..];
      EscapeYamlWithoutQuotes(s[1..]);
    }
  }
}
