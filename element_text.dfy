/** `getElementText`: the tolerant field lookup of main.js. A field is looked up
    by its exact qualified name, then by the local part after the last colon,
    then (for a name without a colon) with the `wp:` prefix; the first element
    found supplies its trimmed text. */
module ElementText {
  import opened JsStrings
  import opened Records

  /** Element `k` is the first one named `name`. */
  ghost predicate IsFirst(els: seq<Element>, name: string, k: nat) {
    k < |els| && els[k].name == name && forall j :: 0 <= j < k ==> els[j].name != name
  }

  ghost predicate Present(els: seq<Element>, name: string) {
    exists j :: 0 <= j < |els| && els[j].name == name
  }

  lemma FirstIsPresent(els: seq<Element>, name: string)
    ensures forall k: nat :: IsFirst(els, name, k) ==> Present(els, name)
  {
    forall k: nat | IsFirst(els, name, k) ensures Present(els, name) {
      assert els[k].name == name;
    }
  }

  lemma FirstIsUnique(els: seq<Element>, name: string, k: nat)
    requires IsFirst(els, name, k)
    ensures forall k': nat :: IsFirst(els, name, k') ==> k' == k
  {
  }

  /** Index of `getElementsByTagName(name)[0]`, if any element has that name. */
  function FirstNamed(els: seq<Element>, name: string): (r: Option<nat>)
    ensures r.Some? ==> r.value < |els|
  {
    if els == [] then None
    else if els[0].name == name then Some(0)
    else match FirstNamed(els[1..], name)
      case None => None
      case Some(k) => Some(k + 1)
  }

  /** `FirstNamed` finds the first element with the name, and finds nothing
      exactly when no element has it. */
  lemma {:induction false} FirstNamedFindsFirst(els: seq<Element>, name: string)
    ensures var r := FirstNamed(els, name);
            && (r.Some? ==> IsFirst(els, name, r.value))
            && (r.None? <==> !Present(els, name))
  {
    if els != [] && els[0].name != name {
      FirstNamedFindsFirst(els[1..], name);
      assert forall j :: 1 <= j < |els| ==> els[j] == els[1..][j - 1];
    }
  }

  /** Index of the last colon in `s`, or -1 when there is none. */
  function LastColon(s: string): (i: int)
    ensures -1 <= i < |s|
    ensures i >= 0 ==> s[i] == ':'
    ensures forall j :: i < j < |s| ==> s[j] != ':'
  {
    if s == [] then -1
    else if s[|s| - 1] == ':' then |s| - 1
    else LastColon(s[..|s| - 1])
  }

  /** The substring after the last colon (all of `s` when it has none):
      `s.split(':').pop()`. */
  function LastSegment(s: string): string {
    s[LastColon(s) + 1..]
  }

  /** Index of the first backslash that is followed by a colon, or -1. */
  function EscapedColonAt(tag: string): (k: int)
    ensures k == -1 || 0 <= k < |tag| - 1
    ensures k >= 0 ==> tag[k] == '\\' && tag[k + 1] == ':'
    ensures forall j :: 0 <= j < (if k < 0 then |tag| - 1 else k) ==> !(tag[j] == '\\' && tag[j + 1] == ':')
  {
    if |tag| < 2 then -1
    else if tag[0] == '\\' && tag[1] == ':' then 0
    else
      var k := EscapedColonAt(tag[1..]);
      if k < 0 then -1 else k + 1
  }

  /** `tag.replace('\\:', ':')`: a string pattern replaces its first occurrence
      only, so the first backslash-colon pair loses its backslash. */
  function UnescapeColon(tag: string): string {
    var k := EscapedColonAt(tag);
    if k < 0 then tag else tag[..k] + tag[k + 1..]
  }

  /** The local name tried second: `tag.replace('\\:', ':').split(':').pop()`. */
  function PlainTag(tag: string): string {
    LastSegment(UnescapeColon(tag))
  }

  /** A prefix never moves the last colon of a string that has one. */
  lemma LastColonOfConcat(a: string, b: string)
    requires LastColon(b) >= 0
    ensures LastColon(a + b) == |a| + LastColon(b)
    ensures LastSegment(a + b) == LastSegment(b)
  {
    var i, j := LastColon(a + b), LastColon(b);
    assert forall t :: 0 <= t < |b| ==> (a + b)[|a| + t] == b[t];
    assert i >= |a| + j by { assert (a + b)[|a| + j] == ':'; }
    assert (a + b)[i + 1..] == b[j + 1..];
  }

  /** Unescaping `\\:` never changes what comes after the last colon, so
      the second lookup is by the local part of the qualified name. */
  lemma PlainTagIsLocalName(tag: string)
    ensures PlainTag(tag) == LastSegment(tag)
  {
    var k := EscapedColonAt(tag);
    if k >= 0 {
      var tail := tag[k + 1..];
      assert LastColon(tail) >= 0 by { assert tail[0] == ':'; }
      LastColonOfConcat(tag[..k], tail);
      assert tag == tag[..k + 1] + tail;
      LastColonOfConcat(tag[..k + 1], tail);
    }
  }

  /** Which element `getElementText` reads: `getElementsByTagName(tagName)`,
      then the local name, then the `wp:`-prefixed name (a name with a colon
      is looked up again as it is), each tried only when the one before found
      nothing. */
  function ChosenElement(els: seq<Element>, tagName: string): (r: Option<nat>)
    ensures r.Some? ==> r.value < |els|
  {
    match FirstNamed(els, tagName)
    case Some(k) => Some(k)
    case None =>
      match FirstNamed(els, PlainTag(tagName))
      case Some(k) => Some(k)
      case None =>
        var withPrefix := if ':' in tagName then tagName else "wp:" + tagName;
        FirstNamed(els, withPrefix)
  }

  /** The element read is the first one with the exact name, else the first
      with the local name, else (for a name without a colon) the first with
      the `wp:`-prefixed name. A lookup falls through only when no element has
      the name; an element that is present but empty stops it. */
  lemma ChosenElementOrder(els: seq<Element>, tagName: string)
    ensures var r := ChosenElement(els, tagName);
            && (forall k: nat :: IsFirst(els, tagName, k) ==> r == Some(k))
            && (!Present(els, tagName) ==>
                  forall k: nat :: IsFirst(els, LastSegment(tagName), k) ==> r == Some(k))
            && (!Present(els, tagName) && !Present(els, LastSegment(tagName)) && ':' !in tagName ==>
                  forall k: nat :: IsFirst(els, "wp:" + tagName, k) ==> r == Some(k))
            && ((&& !Present(els, tagName) && !Present(els, LastSegment(tagName))
                 && (':' in tagName || !Present(els, "wp:" + tagName))) <==> r.None?)
  {
    FirstIsPresent(els, tagName);
    FirstIsPresent(els, LastSegment(tagName));
    FirstIsPresent(els, "wp:" + tagName);
    PlainTagIsLocalName(tagName);
    FirstNamedFindsFirst(els, tagName);
    FirstNamedFindsFirst(els, LastSegment(tagName));
    FirstNamedFindsFirst(els, if ':' in tagName then tagName else "wp:" + tagName);
    match FirstNamed(els, tagName)
    case Some(k) =>
      FirstIsUnique(els, tagName, k);
    case None =>
      match FirstNamed(els, PlainTag(tagName))
      case Some(k) =>
        FirstIsUnique(els, LastSegment(tagName), k);
      case None =>
        var withPrefix := if ':' in tagName then tagName else "wp:" + tagName;
        match FirstNamed(els, withPrefix)
        case Some(k) =>
          FirstIsUnique(els, withPrefix, k);
        case None =>
  }

  /** `getElementText(item, tagName)`: the trimmed text content of the chosen
      element, or the empty string when no candidate name is present. An
      element with the exact name always wins, even when its text is empty. */
  function GetElementText(item: Item, tagName: string): string
  {
    match ChosenElement(item.elements, tagName)
    case Some(k) => Trim(item.elements[k].text)
    case None => ""
  }

  /** An element with the exact name supplies the text, even when that text
      is empty. */
  lemma GetElementTextExact(item: Item, tagName: string, k: nat)
    requires IsFirst(item.elements, tagName, k)
    ensures GetElementText(item, tagName) == Trim(item.elements[k].text)
  {
    ChosenElementOrder(item.elements, tagName);
  }

  /** Without an element of the exact name, the text comes from the first
      element with the local name; without that either, and only for a name
      without a colon, from the first `wp:`-prefixed one. */
  lemma GetElementTextFallbacks(item: Item, tagName: string, k: nat)
    ensures !Present(item.elements, tagName) && IsFirst(item.elements, LastSegment(tagName), k) ==>
              GetElementText(item, tagName) == Trim(item.elements[k].text)
    ensures && !Present(item.elements, tagName) && !Present(item.elements, LastSegment(tagName))
            && ':' !in tagName && IsFirst(item.elements, "wp:" + tagName, k) ==>
              GetElementText(item, tagName) == Trim(item.elements[k].text)
  {
    ChosenElementOrder(item.elements, tagName);
  }

  /** When none of the names is present the text is empty. */
  lemma GetElementTextAbsent(item: Item, tagName: string)
    requires !Present(item.elements, tagName) && !Present(item.elements, LastSegment(tagName))
    requires ':' in tagName || !Present(item.elements, "wp:" + tagName)
    ensures GetElementText(item, tagName) == ""
  {
    ChosenElementOrder(item.elements, tagName);
  }
}
