/** The UTF-8 scanner of pkg/validator/file.go. */
module Utf8 {

  // ----- Groups -----------------------------------------------------------------------

  /** How many bytes the scanner expects from a lead byte; 0 when it is none. */
  function GroupSize(b: bv8): (n: nat)
    ensures n <= 4
  {
    if b < 0x80 then 1
    else if b & 0xE0 == 0xC0 then 2
    else if b & 0xF0 == 0xE0 then 3
    else if b & 0xF8 == 0xF0 then 4
    else 0
  }

  predicate Continuation(b: bv8) { b & 0xC0 == 0x80 }

  /** A lead byte followed by exactly the continuation bytes it announces. */
  predicate Group(g: seq<bv8>) {
    && g != []
    && |g| == GroupSize(g[0])
    && forall j :: 1 <= j < |g| ==> Continuation(g[j])
  }

  function Flatten(groups: seq<seq<bv8>>): seq<bv8> {
    if groups == [] then [] else groups[0] + Flatten(groups[1..])
  }

  predicate AllGroups(groups: seq<seq<bv8>>) { forall i :: 0 <= i < |groups| ==> Group(groups[i]) }

  /** `content` splits into groups. */
  ghost predicate Splits(content: seq<bv8>) {
    exists groups :: AllGroups(groups) && Flatten(groups) == content
  }

  // ----- The scanner -------------------------------------------------------------------

  /** What scanning from the start of `content` decides. */
  predicate Scan(content: seq<bv8>)
    decreases |content|
  {
    content == [] ||
    ( var size := GroupSize(content[0]);
      size != 0 && size <= |content| && Group(content[..size]) && Scan(content[size..]) )
  }

  method IsValidUTF8(content: seq<bv8>) returns (valid: bool)
    ensures valid == Scan(content)
  {
    var i := 0;
    while i < |content|
      invariant 0 <= i <= |content|
      invariant Scan(content) == Scan(content[i..])
      decreases |content| - i
    {
      ghost var rest := content[i..];
      if content[i] < 0x80 {
        assert Group(rest[..1]) && rest[1..] == content[i + 1..];
        i := i + 1;
        continue;
      }

      var size: nat;
      if content[i] & 0xE0 == 0xC0 {
        size := 2;
      } else if content[i] & 0xF0 == 0xE0 {
        size := 3;
      } else if content[i] & 0xF8 == 0xF0 {
        size := 4;
      } else {
        return false;
      }

      if i + size > |content| {
        return false;
      }

      for j := 1 to size
        invariant forall k :: 1 <= k < j ==> Continuation(rest[k])
      {
        if content[i + j] & 0xC0 != 0x80 {
          assert rest[..size][j] == content[i + j];
          return false;
        }
      }

      assert Group(rest[..size]) && rest[size..] == content[i + size..];
      i := i + size;
    }
    assert content[i..] == [];
    return true;
  }

  method IsValidUTF8Text(content: seq<bv8>) returns (valid: bool)
    ensures valid <==> Scan(content) && 0 !in content
  {
    valid := IsValidUTF8(content);
    if !valid || |content| == 0 {
      return;
    }
    for i := 0 to |content|
      invariant 0 !in content[..i]
    {
      if content[i] == 0 {
        return false;
      }
    }
    assert content[..|content|] == content;
  }

  // ----- What is accepted ------------------------------------------------------------------

  /** A continuation byte starts no group. */
  lemma ContinuationsAreNoLeads(b: bv8)
    ensures Continuation(b) <==> 0x80 <= b < 0xC0
    ensures Continuation(b) ==> GroupSize(b) == 0
    ensures GroupSize(b) == 0 <==> 0x80 <= b < 0xC0 || 0xF8 <= b
  {
  }

  lemma {:induction false} ScanFindsGroups(content: seq<bv8>) returns (groups: seq<seq<bv8>>)
    requires Scan(content)
    ensures AllGroups(groups) && Flatten(groups) == content
    decreases |content|
  {
    if content == [] {
      groups := [];
    } else {
      var size := GroupSize(content[0]);
      var rest := ScanFindsGroups(content[size..]);
      groups := [content[..size]] + rest;
      assert groups[1..] == rest;
      assert content[..size] + content[size..] == content;
    }
  }

  lemma {:induction false} GroupsAreScanned(groups: seq<seq<bv8>>)
    requires AllGroups(groups)
    ensures Scan(Flatten(groups))
  {
    if groups != [] {
      GroupsAreScanned(groups[1..]);
      var content := Flatten(groups);
      var g := groups[0];
      assert content[0] == g[0] && content[..|g|] == g && content[|g|..] == Flatten(groups[1..]);
    }
  }

  /** The scanner accepts exactly the byte strings that split into groups. */
  lemma AcceptsExactlySplits(content: seq<bv8>)
    ensures Scan(content) <==> Splits(content)
  {
    if Scan(content) {
      var groups := ScanFindsGroups(content);
    }
    if Splits(content) {
      var groups :| AllGroups(groups) && Flatten(groups) == content;
      GroupsAreScanned(groups);
    }
  }

  /** The split is unique. */
  lemma {:induction false} SplitIsUnique(g1: seq<seq<bv8>>, g2: seq<seq<bv8>>)
    requires AllGroups(g1) && AllGroups(g2) && Flatten(g1) == Flatten(g2)
    ensures g1 == g2
    decreases |g1|
  {
    assert g1 != [] ==> |Flatten(g1)| >= |g1[0]| > 0;
    assert g2 != [] ==> |Flatten(g2)| >= |g2[0]| > 0;
    if g1 != [] {
      var content := Flatten(g1);
      assert content[0] == g1[0][0] && content[0] == g2[0][0];
      var n := |g1[0]|;
      assert g1[0] == content[..n] && g2[0] == content[..n];
      assert Flatten(g1[1..]) == content[n..] && Flatten(g2[1..]) == content[n..];
      SplitIsUnique(g1[1..], g2[1..]);
      assert g1 == [g1[0]] + g1[1..] && g2 == [g2[0]] + g2[1..];
    }
  }

  /** Accepted contents may be concatenated; and once a prefix is accepted the
      whole is accepted exactly when the remainder is. */
  lemma {:induction false} ScanOfConcatenation(a: seq<bv8>, b: seq<bv8>)
    requires Scan(a)
    ensures Scan(a + b) <==> Scan(b)
    decreases |a|
  {
    if a == [] {
      assert a + b == b;
    } else {
      var n := GroupSize(a[0]);
      assert (a + b)[0] == a[0] && (a + b)[..n] == a[..n] && (a + b)[n..] == a[n..] + b;
      ScanOfConcatenation(a[n..], b);
    }
  }

  // ----- RFC 3629 ------------------------------------------------------------------------------

  predicate Tail(b: bv8) { 0x80 <= b <= 0xBF }

  /** UTF8-char of section 4 of RFC 3629. */
  predicate RfcChar(g: seq<bv8>) {
    || (|g| == 1 && g[0] <= 0x7F)
    || (|g| == 2 && 0xC2 <= g[0] <= 0xDF && Tail(g[1]))
    || (|g| == 3 && Tail(g[2]) &&
        ( (g[0] == 0xE0 && 0xA0 <= g[1] <= 0xBF)
          || (0xE1 <= g[0] <= 0xEC && Tail(g[1]))
          || (g[0] == 0xED && 0x80 <= g[1] <= 0x9F)
          || (0xEE <= g[0] <= 0xEF && Tail(g[1])) ))
    || (|g| == 4 && Tail(g[2]) && Tail(g[3]) &&
        ( (g[0] == 0xF0 && 0x90 <= g[1] <= 0xBF)
          || (0xF1 <= g[0] <= 0xF3 && Tail(g[1]))
          || (g[0] == 0xF4 && 0x80 <= g[1] <= 0x8F) ))
  }

  /** The groups the scanner accepts beyond the RFC: overlong forms, surrogates,
      and code points above U+10FFFF. */
  predicate BeyondRfc(g: seq<bv8>) {
    || (|g| == 2 && g[0] <= 0xC1)
    || (|g| == 3 && ((g[0] == 0xE0 && g[1] < 0xA0) || (g[0] == 0xED && g[1] > 0x9F)))
    || (|g| == 4 && ((g[0] == 0xF0 && g[1] < 0x90) || (g[0] == 0xF4 && g[1] > 0x8F) || g[0] > 0xF4))
  }

  lemma LeadRanges(b: bv8)
    ensures GroupSize(b) == 1 <==> b <= 0x7F
    ensures GroupSize(b) == 2 <==> 0xC0 <= b <= 0xDF
    ensures GroupSize(b) == 3 <==> 0xE0 <= b <= 0xEF
    ensures GroupSize(b) == 4 <==> 0xF0 <= b <= 0xF7
  {
  }

  /** Exactly how the scanner's groups relate to the RFC's characters. */
  lemma GroupsVersusRfc(g: seq<bv8>)
    ensures RfcChar(g) <==> Group(g) && !BeyondRfc(g)
  {
    if g != [] {
      LeadRanges(g[0]);
      forall j | 0 <= j < |g| ensures Continuation(g[j]) <==> Tail(g[j]) {
        ContinuationsAreNoLeads(g[j]);
      }
    }
  }

  /** UTF8-octets of section 4 of RFC 3629. */
  ghost predicate WellFormed(content: seq<bv8>) {
    exists chars :: AllRfc(chars) && Flatten(chars) == content
  }

  predicate AllRfc(chars: seq<seq<bv8>>) { forall i :: 0 <= i < |chars| ==> RfcChar(chars[i]) }

  /** Every well-formed string is accepted. */
  lemma AcceptsAllOfRfc(content: seq<bv8>)
    requires WellFormed(content)
    ensures Scan(content)
  {
    var chars :| AllRfc(chars) && Flatten(chars) == content;
    forall i | 0 <= i < |chars| ensures Group(chars[i]) {
      GroupsVersusRfc(chars[i]);
    }
    GroupsAreScanned(chars);
  }

  /** An accepted string is well-formed exactly when none of its groups is an
      overlong form, a surrogate or above U+10FFFF. */
  lemma AcceptedIsWellFormedIff(groups: seq<seq<bv8>>)
    requires AllGroups(groups)
    ensures WellFormed(Flatten(groups)) <==> forall i :: 0 <= i < |groups| ==> !BeyondRfc(groups[i])
  {
    forall g ensures RfcChar(g) <==> Group(g) && !BeyondRfc(g) {
      GroupsVersusRfc(g);
    }
    if chars :| AllRfc(chars) && Flatten(chars) == Flatten(groups) {
      SplitIsUnique(chars, groups);
    }
    if forall i :: 0 <= i < |groups| ==> !BeyondRfc(groups[i]) {
      assert AllRfc(groups);
    }
  }

  lemma OneGroup(g: seq<bv8>)
    requires Group(g)
    ensures Scan(g) && (WellFormed(g) <==> !BeyondRfc(g))
  {
    var groups := [g];
    assert groups[1..] == [] && Flatten(groups) == g + [] == g;
    GroupsAreScanned(groups);
    AcceptedIsWellFormedIff(groups);
  }

  /** One of each kind: an overlong NUL, the first surrogate, and U+110000. */
  lemma AcceptsBeyondRfc()
    ensures Scan([0xC0, 0x80]) && !WellFormed([0xC0, 0x80])
    ensures Scan([0xED, 0xA0, 0x80]) && !WellFormed([0xED, 0xA0, 0x80])
    ensures Scan([0xF4, 0x90, 0x80, 0x80]) && !WellFormed([0xF4, 0x90, 0x80, 0x80])
  {
    OneGroup([0xC0, 0x80]);
    OneGroup([0xED, 0xA0, 0x80]);
    OneGroup([0xF4, 0x90, 0x80, 0x80]);
  }
}
