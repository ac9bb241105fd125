/** The string functions of Go's standard library that the code relies on. */
module Strings {
  import opened Sequences

  /** unicode.IsSpace. */
  predicate Space(c: char) {
    || '\t' <= c <= '\r' || c == ' ' || c == '\U{0085}' || c == '\U{00A0}' || c == '\U{1680}'
    || '\U{2000}' <= c <= '\U{200A}' || c == '\U{2028}' || c == '\U{2029}' || c == '\U{202F}'
    || c == '\U{205F}' || c == '\U{3000}'
  }

  function TrimSpace(s: string): (t: string)
    ensures t != "" ==> !Space(t[0]) && !Space(t[|t| - 1])
    ensures s != "" && !Space(s[0]) && !Space(s[|s| - 1]) ==> t == s
    ensures |t| <= |s|
  {
    if s == "" then ""
    else if Space(s[0]) then TrimSpace(s[1..])
    else if Space(s[|s| - 1]) then TrimSpace(s[..|s| - 1])
    else s
  }

  /** `len` counts the bytes of the UTF-8 encoding. */
  function ByteLength(s: string): nat {
    if s == "" then 0
    else
      var c := s[0];
      (if c < '\U{0080}' then 1 else if c < '\U{0800}' then 2 else if c < '\U{10000}' then 3 else 4) +
        ByteLength(s[1..])
  }

  /** Where `c` first occurs, or the length of `s`. */
  function IndexOf(s: string, c: char): (i: nat)
    ensures i <= |s|
    ensures c !in s[..i]
    ensures i < |s| ==> s[i] == c
  {
    if s == "" || s[0] == c then 0
    else
      var i := IndexOf(s[1..], c);
      assert s[..i + 1] == [s[0]] + s[1..][..i];
      i + 1
  }

  lemma {:induction false} IndexAfter(prefix: string, c: char, rest: string)
    requires c !in prefix
    ensures IndexOf(prefix + [c] + rest, c) == |prefix|
  {
    var s := prefix + [c] + rest;
    var i := IndexOf(s, c);
    assert s[|prefix|] == c && s[..|prefix|] == prefix;
    assert forall k :: 0 <= k < |prefix| ==> s[k] == prefix[k] && prefix[k] in prefix;
    assert forall k :: |prefix| < k <= |s| ==> c in s[..k] by {
      forall k | |prefix| < k <= |s| ensures c in s[..k] {
        assert s[..k][|prefix|] == c;
      }
    }
  }

  // ----- What they do -----------------------------------------------------------------

  predicate AllSpace(s: string) { forall i :: 0 <= i < |s| ==> Space(s[i]) }

  predicate Surrounds(s: string, before: string, t: string, after: string) {
    s == before + t + after && AllSpace(before) && AllSpace(after)
  }

  lemma SpaceInFront(c: char, s: string, before: string, t: string, after: string)
    requires Space(c) && Surrounds(s, before, t, after)
    ensures Surrounds([c] + s, [c] + before, t, after)
  {
    Assoc([c], before + t, after);
    Assoc([c], before, t);
  }

  lemma SpaceBehind(c: char, s: string, before: string, t: string, after: string)
    requires Space(c) && Surrounds(s, before, t, after)
    ensures Surrounds(s + [c], before, t, after + [c])
  {
    Assoc(before + t, after, [c]);
  }

  /** Trimming takes away space at both ends and nothing else. */
  lemma {:induction false} TrimSpaceMeaning(s: string) returns (before: string, after: string)
    ensures Surrounds(s, before, TrimSpace(s), after)
    decreases |s|
  {
    before, after := "", "";
    var n := |s| - 1;
    if s == "" {
    } else if Space(s[0]) {
      before, after := TrimSpaceMeaning(s[1..]);
      SpaceInFront(s[0], s[1..], before, TrimSpace(s), after);
      assert s == [s[0]] + s[1..];
      before := [s[0]] + before;
    } else if Space(s[n]) {
      before, after := TrimSpaceMeaning(s[..n]);
      SpaceBehind(s[n], s[..n], before, TrimSpace(s), after);
      assert s == s[..n] + [s[n]];
      after := after + [s[n]];
    }
  }

  /** And so surrounding space never matters. */
  lemma {:induction false} TrimSpaceOfSurrounded(before: string, t: string, after: string)
    requires AllSpace(before) && AllSpace(after) && TrimSpace(t) == t
    ensures TrimSpace(before + t + after) == t
    decreases |before| + |after|
  {
    var s := before + t + after;
    if before != "" {
      assert s[0] == before[0] && s[1..] == before[1..] + t + after;
      TrimSpaceOfSurrounded(before[1..], t, after);
    } else if after != "" {
      var n := |after| - 1;
      assert s == t + after && s[|s| - 1] == after[n];
      if t == "" {
        assert s == after && s[1..] == after[1..] == "" + t + after[1..];
        TrimSpaceOfSurrounded("", t, after[1..]);
      } else {
        assert s[0] == t[0] && s[..|s| - 1] == "" + t + after[..n];
        TrimSpaceOfSurrounded("", t, after[..n]);
      }
    } else {
      assert s == t;
    }
  }

  /** Bytes add up over concatenation. */
  lemma {:induction false} ByteLengthAppend(a: string, b: string)
    ensures ByteLength(a + b) == ByteLength(a) + ByteLength(b)
  {
    if a == "" {
      assert a + b == b;
    } else {
      assert (a + b)[0] == a[0] && (a + b)[1..] == a[1..] + b;
      ByteLengthAppend(a[1..], b);
    }
  }

  /** As many bytes as characters exactly for ASCII, and at most four for one. */
  lemma {:induction false} ByteLengthBounds(s: string)
    ensures |s| <= ByteLength(s) <= 4 * |s|
    ensures ByteLength(s) == |s| <==> forall i :: 0 <= i < |s| ==> s[i] < '\U{0080}'
  {
    if s != "" {
      ByteLengthBounds(s[1..]);
      assert forall i :: 0 < i < |s| ==> s[i] == s[1..][i - 1];
    }
  }

  /** One character, by the ranges of the table in section 3 of RFC 3629. */
  lemma ByteLengthOfOne(c: char)
    ensures ByteLength([c]) == 1 <==> c as int <= 0x7F
    ensures ByteLength([c]) == 2 <==> 0x80 <= c as int <= 0x7FF
    ensures ByteLength([c]) == 3 <==> 0x800 <= c as int <= 0xFFFF
    ensures ByteLength([c]) == 4 <==> 0x10000 <= c as int
  {
    assert [c][1..] == "";
  }

  // ----- Splitting at a separator ---------------------------------------------------------

  /** `strings.Split` by one character. */
  function Split(s: string, c: char): (parts: seq<string>)
    ensures parts != []
    decreases |s|
  {
    var i := IndexOf(s, c);
    if i == |s| then [s] else [s[..i]] + Split(s[i + 1..], c)
  }

  function Join(parts: seq<string>, c: char): string
    requires parts != []
  {
    if |parts| == 1 then parts[0] else parts[0] + [c] + Join(parts[1..], c)
  }

  /** The parts are what stands between the separators, in order. */
  lemma {:induction false} SplitJoins(s: string, c: char)
    ensures Join(Split(s, c), c) == s
    decreases |s|
  {
    var i := IndexOf(s, c);
    if i == |s| {
      assert s[..i] == s;
    } else {
      var rest := Split(s[i + 1..], c);
      SplitJoins(s[i + 1..], c);
      assert Split(s, c)[1..] == rest && Split(s, c)[0] == s[..i];
      assert s == s[..i] + [c] + s[i + 1..];
    }
  }

  lemma {:induction false} PartsHaveNoSeparator(s: string, c: char, part: string)
    requires part in Split(s, c)
    ensures c !in part
    decreases |s|
  {
    var i := IndexOf(s, c);
    if i == |s| {
      assert s[..i] == s;
    } else if part != s[..i] {
      PartsHaveNoSeparator(s[i + 1..], c, part);
    }
  }
}
