/** The QMK layout-name helpers of src/parser/qmk.ts: a QMK `layouts` key
    becomes a devicetree node name and a display name. */
module Qmk {
  import opened JsString

  /** `getQmkLayoutNodeName`: lower-cased, then trimmed. */
  function NodeName(key: string): (r: string)
    ensures IsTrimmed(r) && HasNoUpper(r)
    ensures forall c :: c in r ==> c in ToLower(key)
  {
    TrimFacts(ToLower(key));
    LowerHasNoUpper(key);
    Trim(ToLower(key))
  }

  /** Lower-casing leaves no capital letter. */
  lemma LowerHasNoUpper(s: string)
    ensures HasNoUpper(ToLower(s))
  {
    var t := ToLower(s);
    forall c | c in t ensures !('A' <= c <= 'Z') {
      var i :| 0 <= i < |t| && t[i] == c;
      assert c == LowerChar(s[i]);
    }
  }

  /** No ASCII capital letter. */
  predicate HasNoUpper(s: string)
  {
    forall c :: c in s ==> !('A' <= c <= 'Z')
  }

  /** Lower-casing changes nothing in a string without capitals. */
  lemma LowerOfLower(s: string)
    requires HasNoUpper(s)
    ensures ToLower(s) == s
  {
    assert forall i :: 0 <= i < |s| ==> s[i] in s;
  }

  /** Naming a node name again gives the same name. */
  lemma NodeNameIdempotent(key: string)
    ensures NodeName(NodeName(key)) == NodeName(key)
  {
    var n := NodeName(key);
    LowerOfLower(n);
    TrimFacts(n);
  }

  /** The `LAYOUT_` prefix, once. */
  const PREFIX: string := "LAYOUT_"

  /** Whether the key starts with `LAYOUT_`. */
  predicate HasPrefix(key: string)
  {
    |key| >= |PREFIX| && key[..|PREFIX|] == PREFIX
  }

  /** `key.replace(/^LAYOUT_/, '')`: the prefix is removed only at the start,
      and only one copy of it. */
  function StripPrefix(key: string): (r: string)
    ensures HasPrefix(key) ==> key == PREFIX + r
    ensures !HasPrefix(key) ==> r == key
  {
    if HasPrefix(key) then key[|PREFIX|..] else key
  }

  /** `getQmkLayoutDisplayName`: the prefix removed, underscores turned into
      spaces, then trimmed. */
  function DisplayName(key: string): (r: string)
    ensures '_' !in r && IsTrimmed(r)
  {
    var spaced := ReplaceAll(StripPrefix(key), '_', ' ');
    TrimFacts(spaced);
    assert '_' !in spaced by {
      forall i | 0 <= i < |spaced| ensures spaced[i] != '_' { }
    }
    Trim(spaced)
  }

  /** A key that already reads as a display name is kept as it is. */
  lemma DisplayNameKeeps(key: string)
    requires !HasPrefix(key)
    requires '_' !in key && IsTrimmed(key)
    ensures DisplayName(key) == key
  {
    assert StripPrefix(key) == key;
    var spaced := ReplaceAll(key, '_', ' ');
    assert spaced == key by {
      forall i | 0 <= i < |key| ensures spaced[i] == key[i] {
        assert key[i] in key;
      }
    }
    TrimFacts(key);
  }

  /** Only the first `LAYOUT_` goes; a second one stays as `LAYOUT `. */
  lemma DisplayNameStripsOnce(rest: string)
    ensures DisplayName(PREFIX + PREFIX + rest) == Trim("LAYOUT " + ReplaceAll(rest, '_', ' '))
  {
    var key := PREFIX + PREFIX + rest;
    assert key[..|PREFIX|] == PREFIX;
    assert HasPrefix(key);
    assert StripPrefix(key) == PREFIX + rest;
    assert ReplaceAll(PREFIX + rest, '_', ' ') == "LAYOUT " + ReplaceAll(rest, '_', ' ');
  }

  /** The prefix counts only at the start of the key. */
  lemma DisplayNameInnerPrefix(head: char, rest: string)
    requires head != 'L'
    ensures DisplayName([head] + PREFIX + rest) == Trim(ReplaceAll([head] + PREFIX + rest, '_', ' '))
  {
    var key := [head] + PREFIX + rest;
    assert key[0] == head && PREFIX[0] == 'L';
    assert !HasPrefix(key);
  }
}
