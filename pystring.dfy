/** The two Python string operations the scraper's text extraction relies on:
    `str.strip()` with no arguments and `" ".join(parts)`. */
module PyString {

  /** The characters Python's `str.isspace()` accepts, which are exactly the
      characters `str.strip()` removes when called without arguments. */
  predicate IsSpace(c: char) {
    || c == ' '
    || ('\t' <= c <= '\r')
    || ('\U{1C}' <= c <= '\U{1F}')
    || c == '\U{85}'
    || c == '\U{A0}'
    || c == '\U{1680}'
    || ('\U{2000}' <= c <= '\U{200A}')
    || c == '\U{2028}'
    || c == '\U{2029}'
    || c == '\U{202F}'
    || c == '\U{205F}'
    || c == '\U{3000}'
  }

  predicate AllSpace(s: string) {
    forall k | 0 <= k < |s| :: IsSpace(s[k])
  }

  lemma AllSpaceConcat(a: string, b: string)
    requires AllSpace(a) && AllSpace(b)
    ensures AllSpace(a + b)
  {
    forall k | 0 <= k < |a + b| ensures IsSpace((a + b)[k]) {
      if k < |a| { assert (a + b)[k] == a[k]; } else { assert (a + b)[k] == b[k - |a|]; }
    }
  }

  /** A string that `strip()` leaves as it is. */
  predicate IsStripped(s: string) {
    s == [] || (!IsSpace(s[0]) && !IsSpace(s[|s| - 1]))
  }

  /** The scan `lstrip()` makes: from index `i`, the first index that is not
      whitespace, or `|s|` if there is none. */
  function SkipSpace(s: string, i: nat): (j: nat)
    requires i <= |s|
    ensures i <= j <= |s|
    ensures forall k | i <= k < j :: IsSpace(s[k])
    ensures j == |s| || !IsSpace(s[j])
    decreases |s| - i
  {
    if i < |s| && IsSpace(s[i]) then SkipSpace(s, i + 1) else i
  }

  /** The scan `rstrip()` makes: going back from index `j`, no further than
      `lo`, the end of the last character that is not whitespace. */
  function SkipSpaceBack(s: string, lo: nat, j: nat): (i: nat)
    requires lo <= j <= |s|
    ensures lo <= i <= j
    ensures forall k | i <= k < j :: IsSpace(s[k])
    ensures i == lo || !IsSpace(s[i - 1])
    decreases j
  {
    if lo < j && IsSpace(s[j - 1]) then SkipSpaceBack(s, lo, j - 1) else j
  }

  /** `s` is `r` with whitespace added at the front and at the back. */
  predicate Pads(s: string, r: string) {
    exists i, j :: 0 <= i <= j <= |s| && r == s[i..j] && AllSpace(s[..i]) && AllSpace(s[j..])
  }

  /** `s.strip()`: `s` is the result padded with whitespace on both sides,
      and the result neither starts nor ends with whitespace. These two facts
      determine the result. */
  function Strip(s: string): (r: string)
    ensures Pads(s, r)
    ensures IsStripped(r)
  {
    var i := SkipSpace(s, 0);
    var j := SkipSpaceBack(s, i, |s|);
    assert AllSpace(s[..i]) && AllSpace(s[j..]);
    s[i..j]
  }

  /** Stripping a stripped string changes nothing, so `strip()` is idempotent. */
  lemma StripStripped(s: string)
    requires IsStripped(s)
    ensures Strip(s) == s
  {
    assert s[0..|s|] == s;
  }

  lemma StripIdempotent(s: string)
    ensures Strip(Strip(s)) == Strip(s)
  {
    StripStripped(Strip(s));
  }

  /** `s.strip()` is empty exactly when `s` is nothing but whitespace. */
  lemma StripEmptyIffAllSpace(s: string)
    ensures Strip(s) == "" <==> AllSpace(s)
  {
    var i := SkipSpace(s, 0);
    var j := SkipSpaceBack(s, i, |s|);
    if AllSpace(s) {
      assert i == |s|;
    }
  }

  /** The length of `" ".join(parts)` plus one: each part and the separator after it. */
  function Width(parts: seq<string>): nat {
    if parts == [] then 0 else |parts[0]| + 1 + Width(parts[1..])
  }

  lemma {:induction false} WidthAppend(a: seq<string>, b: seq<string>)
    ensures Width(a + b) == Width(a) + Width(b)
  {
    if a == [] {
      assert a + b == b;
    } else {
      assert (a + b)[1..] == a[1..] + b;
      WidthAppend(a[1..], b);
    }
  }

  /** `" ".join(parts)`: the parts in order with one space between neighbours. */
  function JoinSpace(parts: seq<string>): (r: string)
    ensures |r| + 1 == if parts == [] then 1 else Width(parts)
  {
    if |parts| == 0 then ""
    else if |parts| == 1 then parts[0]
    else parts[0] + " " + JoinSpace(parts[1..])
  }

  /** Joining a concatenation puts one separator between the two joins. */
  lemma {:induction false} JoinSpaceAppend(a: seq<string>, b: seq<string>)
    requires a != [] && b != []
    ensures JoinSpace(a + b) == JoinSpace(a) + " " + JoinSpace(b)
  {
    assert (a + b)[0] == a[0];
    if |a| == 1 {
      assert (a + b)[1..] == b;
    } else {
      assert (a + b)[1..] == a[1..] + b;
      JoinSpaceAppend(a[1..], b);
      calc {
        JoinSpace(a + b);
        a[0] + " " + JoinSpace(a[1..] + b);
        a[0] + " " + (JoinSpace(a[1..]) + " " + JoinSpace(b));
        (a[0] + " " + JoinSpace(a[1..])) + " " + JoinSpace(b);
      }
    }
  }

  /** Joining non-empty stripped parts gives a stripped string, empty exactly
      when there are no parts. */
  lemma {:induction false} JoinSpaceStripped(parts: seq<string>)
    requires AllStrippedNonEmpty(parts)
    ensures IsStripped(JoinSpace(parts))
    ensures JoinSpace(parts) == "" <==> parts == []
  {
    if |parts| > 1 {
      JoinSpaceStripped(parts[1..]);
      var r := JoinSpace(parts);
      var tail := JoinSpace(parts[1..]);
      assert r == parts[0] + " " + tail;
      assert r[0] == parts[0][0];
      assert r[|r| - 1] == tail[|tail| - 1];
    }
  }

  /** Every part is non-empty and stripped: what `strip=True` produces. */
  predicate AllStrippedNonEmpty(parts: seq<string>) {
    forall k | 0 <= k < |parts| :: parts[k] != "" && IsStripped(parts[k])
  }

  lemma AllStrippedNonEmptyConcat(a: seq<string>, b: seq<string>)
    requires AllStrippedNonEmpty(a) && AllStrippedNonEmpty(b)
    ensures AllStrippedNonEmpty(a + b)
  {
    forall k | 0 <= k < |a + b| ensures (a + b)[k] != "" && IsStripped((a + b)[k]) {
      if k < |a| { assert (a + b)[k] == a[k]; } else { assert (a + b)[k] == b[k - |a|]; }
    }
  }

  /** The parts `strip=True` keeps: every string stripped, empty results dropped,
      order preserved. */
  function StrippedStrings(strings: seq<string>): (r: seq<string>)
    ensures |r| <= |strings|
    ensures AllStrippedNonEmpty(r)
  {
    if strings == [] then []
    else
      var head, rest := Kept(strings[0]), StrippedStrings(strings[1..]);
      AllStrippedNonEmptyConcat(head, rest);
      head + rest
  }

  /** What `strip=True` keeps of one string: its stripped form, unless that is empty. */
  function Kept(s: string): (r: seq<string>)
    ensures |r| <= 1 && AllStrippedNonEmpty(r)
  {
    if Strip(s) == "" then [] else [Strip(s)]
  }

  lemma {:induction false} StrippedStringsAppend(a: seq<string>, b: seq<string>)
    ensures StrippedStrings(a + b) == StrippedStrings(a) + StrippedStrings(b)
  {
    if a == [] {
      assert a + b == b;
    } else {
      assert (a + b)[0] == a[0];
      assert (a + b)[1..] == a[1..] + b;
      StrippedStringsAppend(a[1..], b);
      calc {
        StrippedStrings(a + b);
        Kept(a[0]) + StrippedStrings(a[1..] + b);
        Kept(a[0]) + (StrippedStrings(a[1..]) + StrippedStrings(b));
        (Kept(a[0]) + StrippedStrings(a[1..])) + StrippedStrings(b);
      }
    }
  }

  /** `strip=True` keeps nothing exactly when every string is whitespace only. */
  lemma {:induction false} StrippedStringsEmpty(strings: seq<string>)
    ensures StrippedStrings(strings) == [] <==> forall k | 0 <= k < |strings| :: AllSpace(strings[k])
  {
    if strings != [] {
      KeptEmpty(strings[0]);
      StrippedStringsEmpty(strings[1..]);
      EachAllSpace(strings);
      assert StrippedStrings(strings) == Kept(strings[0]) + StrippedStrings(strings[1..]);
    }
  }

  lemma KeptEmpty(s: string)
    ensures Kept(s) == [] <==> AllSpace(s)
  {
    StripEmptyIffAllSpace(s);
  }

  lemma EachAllSpace(strings: seq<string>)
    requires strings != []
    ensures (forall k | 0 <= k < |strings| :: AllSpace(strings[k])) <==>
              AllSpace(strings[0]) && forall k | 0 <= k < |strings| - 1 :: AllSpace(strings[1..][k])
  {
    assert forall k | 1 <= k < |strings| :: strings[k] == strings[1..][k - 1];
  }

  /** Stripping already stripped, non-empty strings keeps them all. */
  lemma {:induction false} StrippedStringsOfStripped(parts: seq<string>)
    requires AllStrippedNonEmpty(parts)
    ensures StrippedStrings(parts) == parts
  {
    if parts != [] {
      var head, tail := parts[0], parts[1..];
      assert Kept(head) == [head] by { KeptStripped(head); }
      assert StrippedStrings(tail) == tail by {
        AllStrippedNonEmptyTail(parts);
        StrippedStringsOfStripped(tail);
      }
      assert StrippedStrings(parts) == Kept(head) + StrippedStrings(tail);
      assert [head] + tail == parts;
    }
  }

  lemma KeptStripped(s: string)
    requires s != "" && IsStripped(s)
    ensures Kept(s) == [s]
  {
    StripStripped(s);
  }

  lemma AllStrippedNonEmptyTail(parts: seq<string>)
    requires parts != [] && AllStrippedNonEmpty(parts)
    ensures AllStrippedNonEmpty(parts[1..])
  {
    forall k | 0 <= k < |parts| - 1 ensures parts[1..][k] != "" && IsStripped(parts[1..][k]) {
      assert parts[1..][k] == parts[k + 1];
    }
  }
}
