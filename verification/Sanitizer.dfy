/** `SanitizeObjectName` of service/util.go. */
module Sanitizer {
  import opened Sequences

  // ----- The three passes ----------------------------------------------------------------

  /** Characters dropped outright. */
  predicate Removed(c: char) { c in "^*|\\&\";" }

  /** What one rune of the input becomes: a fixed replacement, itself if it is
      printable ASCII, or nothing. */
  function Rewrite(c: char): string {
    if Removed(c) then ""
    else if c == 'ç' then "c"
    else if c == 'ğ' then "g"
    else if c == 'ı' || c == 'î' || c == 'ï' then "i"
    else if c == 'ö' || c == 'ô' then "o"
    else if c == 'ş' then "s"
    else if c == 'ü' || c == 'ú' || c == 'ù' then "u"
    else if c == 'Ç' then "C"
    else if c == 'Ğ' then "G"
    else if c == 'İ' then "I"
    else if c == 'Ö' then "O"
    else if c == 'Ş' then "S"
    else if c == 'Ü' then "U"
    else if c == 'ë' || c == 'é' || c == 'è' || c == 'ê' then "e"
    else if c == 'ñ' then "n"
    else if c == 'à' || c == 'á' || c == 'â' then "a"
    else if c == ' ' || c == '\t' || c == '\n' || c == '\r' then "_"
    else if c < 32 as char || c > 126 as char then ""
    else [c]
  }

  function Rewritten(name: string): string {
    if name == "" then "" else Rewritten(name[..|name| - 1]) + Rewrite(name[|name| - 1])
  }

  predicate PairAt(s: string, i: nat) { i + 1 < |s| && s[i] == '_' && s[i + 1] == '_' }

  predicate HasPair(s: string) { exists i: nat :: i < |s| && PairAt(s, i) }

  /** `ReplaceAll(s, "__", "_")`: one pass from the left, pairs not overlapping. */
  function ReplacePairs(s: string): string {
    if s == "" then ""
    else if PairAt(s, 0) then "_" + ReplacePairs(s[2..])
    else [s[0]] + ReplacePairs(s[1..])
  }

  /** Every run of underscores becomes one. */
  function CollapseRuns(s: string): string {
    if s == "" then ""
    else if PairAt(s, 0) then CollapseRuns(s[1..])
    else [s[0]] + CollapseRuns(s[1..])
  }

  predicate Edge(c: char) { c == '_' || c == '.' }

  function TrimLeft(s: string): string {
    if s != "" && Edge(s[0]) then TrimLeft(s[1..]) else s
  }

  function TrimRight(s: string): string {
    if s != "" && Edge(s[|s| - 1]) then TrimRight(s[..|s| - 1]) else s
  }

  function Trim(s: string): string { TrimRight(TrimLeft(s)) }

  function OrFile(s: string): string { if s == "" then "file" else s }

  /** The sanitizer with runs collapsed in a single pass. */
  function Sanitized(name: string): string { OrFile(Trim(CollapseRuns(Rewritten(name)))) }

  // ----- The code ----------------------------------------------------------------------------

  method ContainsPair(s: string) returns (found: bool)
    ensures found <==> HasPair(s)
  {
    found := false;
    for i := 0 to |s|
      invariant forall j: nat :: j < i ==> !PairAt(s, j)
    {
      if PairAt(s, i) {
        return true;
      }
    }
  }

  method SanitizeObjectName(objectName: string) returns (sanitized: string)
    ensures sanitized == Sanitized(objectName)
  {
    var result := "";
    for i := 0 to |objectName|
      invariant result == Rewritten(objectName[..i])
    {
      assert objectName[..i + 1][..i] == objectName[..i];
      result := result + Rewrite(objectName[i]);
    }
    assert objectName[..|objectName|] == objectName;

    sanitized := result;
    var again := ContainsPair(sanitized);
    while again
      invariant again <==> HasPair(sanitized)
      invariant CollapseRuns(sanitized) == CollapseRuns(result)
      decreases |sanitized|
    {
      ReplacingShortens(sanitized);
      ReplacingKeepsCollapse(sanitized);
      sanitized := ReplacePairs(sanitized);
      again := ContainsPair(sanitized);
    }
    CollapsedIsItself(sanitized);

    sanitized := Trim(sanitized);
    if sanitized == "" {
      sanitized := "file";
    }
  }

  /** The rewriting loop terminates: a pass over a string with a pair shortens it. */
  lemma {:induction false} ReplacingShortens(s: string)
    ensures |ReplacePairs(s)| <= |s|
    ensures HasPair(s) ==> |ReplacePairs(s)| < |s|
    decreases |s|
  {
    if s != "" {
      if PairAt(s, 0) {
        ReplacingShortens(s[2..]);
      } else {
        ReplacingShortens(s[1..]);
        if i: nat :| i < |s| && PairAt(s, i) {
          assert PairAt(s[1..], i - 1);
        }
      }
    }
  }

  lemma CollapseStep(c: char, s: string)
    ensures CollapseRuns([c] + s) ==
              if c == '_' && s != "" && s[0] == '_' then CollapseRuns(s) else [c] + CollapseRuns(s)
  {
    assert ([c] + s)[1..] == s;
  }

  lemma {:induction false} ReplacingKeepsCollapse(s: string)
    ensures CollapseRuns(ReplacePairs(s)) == CollapseRuns(s)
    ensures s != "" ==> ReplacePairs(s) != "" && ReplacePairs(s)[0] == s[0]
    decreases |s|
  {
    if s != "" {
      if PairAt(s, 0) {
        ReplacingKeepsCollapse(s[2..]);
        CollapseStep('_', ReplacePairs(s[2..]));
        CollapseStep('_', s[2..]);
        assert s[1..] == "_" + s[2..];
      } else {
        ReplacingKeepsCollapse(s[1..]);
        CollapseStep(s[0], ReplacePairs(s[1..]));
      }
    }
  }

  lemma {:induction false} CollapsedIsItself(s: string)
    requires !HasPair(s)
    ensures CollapseRuns(s) == s
    decreases |s|
  {
    if s != "" {
      assert !PairAt(s, 0);
      if i: nat :| i < |s[1..]| && PairAt(s[1..], i) {
        assert PairAt(s, i + 1);
      }
      CollapsedIsItself(s[1..]);
    }
  }

  // ----- The normal form -----------------------------------------------------------------------

  /** Printable ASCII, no space, none of the removed characters. */
  predicate Clean(c: char) { 32 as char < c <= 126 as char && c !in "^*|\\&\";" }

  predicate AllClean(s: string) { forall i :: 0 <= i < |s| ==> Clean(s[i]) }

  predicate NormalName(s: string) {
    s != "" && AllClean(s) && !HasPair(s) && s[0] !in "_." && s[|s| - 1] !in "_."
  }

  lemma {:induction false} RewrittenIsClean(name: string)
    ensures AllClean(Rewritten(name))
  {
    if name != "" {
      RewrittenIsClean(name[..|name| - 1]);
      assert AllClean(Rewrite(name[|name| - 1]));
    }
  }

  lemma CleanCharIsKept(c: char)
    requires Clean(c)
    ensures Rewrite(c) == [c]
  {
  }

  lemma {:induction false} CleanIsKept(s: string)
    requires AllClean(s)
    ensures Rewritten(s) == s
  {
    if s != "" {
      var init, c := s[..|s| - 1], s[|s| - 1];
      CleanIsKept(init);
      CleanCharIsKept(c);
      assert Rewritten(s) == init + [c];
    }
  }

  lemma {:induction false} CollapseLeavesNoPair(s: string)
    ensures !HasPair(CollapseRuns(s))
    ensures AllClean(s) ==> AllClean(CollapseRuns(s))
    ensures s != "" ==> CollapseRuns(s) != "" && CollapseRuns(s)[0] == s[0]
    decreases |s|
  {
    if s != "" {
      CollapseLeavesNoPair(s[1..]);
      var rest := CollapseRuns(s[1..]);
      if !PairAt(s, 0) {
        if i: nat :| i < |[s[0]] + rest| && PairAt([s[0]] + rest, i) {
          if i > 0 {
            assert PairAt(rest, i - 1);
          }
        }
      }
    }
  }

  lemma {:induction false} TrimLeftIsSuffix(s: string)
    ensures |TrimLeft(s)| <= |s| && TrimLeft(s) == s[|s| - |TrimLeft(s)|..]
    ensures TrimLeft(s) != "" ==> !Edge(TrimLeft(s)[0])
    decreases |s|
  {
    if s != "" && Edge(s[0]) {
      TrimLeftIsSuffix(s[1..]);
    }
  }

  lemma {:induction false} TrimRightIsPrefix(s: string)
    ensures |TrimRight(s)| <= |s| && TrimRight(s) == s[..|TrimRight(s)|]
    ensures TrimRight(s) != "" ==> !Edge(TrimRight(s)[|TrimRight(s)| - 1])
    decreases |s|
  {
    if s != "" && Edge(s[|s| - 1]) {
      TrimRightIsPrefix(s[..|s| - 1]);
    }
  }

  lemma PartsHaveNoPair(s: string, from: nat, to: nat)
    requires from <= to <= |s| && !HasPair(s)
    ensures !HasPair(s[from..to])
  {
    if i: nat :| i < |s[from..to]| && PairAt(s[from..to], i) {
      assert PairAt(s, from + i);
    }
  }

  /** Whatever the input, the result is a normal name. */
  lemma SanitizedIsNormal(name: string)
    ensures NormalName(Sanitized(name))
  {
    RewrittenIsClean(name);
    var c := CollapseRuns(Rewritten(name));
    CollapseLeavesNoPair(Rewritten(name));
    var l := TrimLeft(c);
    TrimLeftIsSuffix(c);
    PartsHaveNoPair(c, |c| - |l|, |c|);
    assert l == c[|c| - |l|..|c|];
    var t := TrimRight(l);
    TrimRightIsPrefix(l);
    PartsHaveNoPair(l, 0, |t|);
    assert t == l[0..|t|];
    var file := "file";
    forall i: nat | i < |file| ensures !PairAt(file, i) {}
  }

  lemma NothingToTrim(s: string)
    requires s != "" && s[0] !in "_." && s[|s| - 1] !in "_."
    ensures Trim(s) == s
  {
    assert TrimLeft(s) == s;
  }

  lemma NormalNamesAreKept(name: string)
    requires NormalName(name)
    ensures Sanitized(name) == name
  {
    CleanIsKept(name);
    CollapsedIsItself(name);
    NothingToTrim(name);
  }

  /** The normal names are exactly the names sanitizing leaves alone. */
  lemma NormalNamesAreFixed(name: string)
    ensures NormalName(name) <==> Sanitized(name) == name
  {
    SanitizedIsNormal(name);
    if NormalName(name) {
      NormalNamesAreKept(name);
    }
  }

  /** Sanitizing twice is sanitizing once. */
  lemma SanitizingIsIdempotent(name: string)
    ensures Sanitized(Sanitized(name)) == Sanitized(name)
  {
    SanitizedIsNormal(name);
    NormalNamesAreKept(Sanitized(name));
  }

  // ----- What becomes of each character ------------------------------------------------------------

  const ACCENTED: string := "çğıîïöôşüúùëéèêñàáâÇĞİÖŞÜ"
  const PLAIN: string := "cgiiioosuuueeeenaaaCGIOSU"

  /** Characters are rewritten one by one. */
  lemma {:induction false} RewrittenAppend(a: string, b: string)
    ensures Rewritten(a + b) == Rewritten(a) + Rewritten(b)
    decreases |b|
  {
    if b == "" {
      assert a + b == a;
    } else {
      var n := |b| - 1;
      assert (a + b)[..|a + b| - 1] == a + b[..n];
      RewrittenAppend(a, b[..n]);
      Assoc(Rewritten(a), Rewritten(b[..n]), Rewrite(b[n]));
    }
  }

  lemma AccentsAreFolded(i: nat)
    requires i < |ACCENTED|
    ensures |ACCENTED| == |PLAIN| && Rewrite(ACCENTED[i]) == [PLAIN[i]]
    ensures ACCENTED[i] as int > 126 && Clean(PLAIN[i]) && PLAIN[i] != '_'
  {
  }

  lemma AccentedIsFolded(c: char)
    requires c in ACCENTED
    ensures c as int > 126 && |Rewrite(c)| == 1 && Rewrite(c) != "_" && Rewrite(c) != [c]
  {
    var i :| 0 <= i < |ACCENTED| && ACCENTED[i] == c;
    AccentsAreFolded(i);
  }

  lemma OthersAreDropped(c: char)
    requires c !in ACCENTED && c !in " \t\n\r" && !Clean(c)
    ensures Rewrite(c) == ""
  {
  }

  /** Every character is kept, folded, made an underscore or dropped, and these are
      the ones for each. */
  lemma EachCharacter(c: char)
    ensures Rewrite(c) == "_" <==> c in " \t\n\r_"
    ensures Rewrite(c) == [c] <==> Clean(c)
    ensures Rewrite(c) == "" <==> !Clean(c) && c !in " \t\n\r" && c !in ACCENTED
    ensures |Rewrite(c)| <= 1
  {
    if c in ACCENTED {
      AccentedIsFolded(c);
    } else if c in " \t\n\r" {
      assert Rewrite(c) == "_";
    } else if Clean(c) {
      CleanCharIsKept(c);
    } else {
      OthersAreDropped(c);
    }
  }

  // ----- What sanitizing keeps -----------------------------------------------------------------------

  /** The characters that are neither underscore nor dot. */
  function Kept(s: string): string {
    if s == "" then "" else (if Edge(s[0]) then "" else [s[0]]) + Kept(s[1..])
  }

  lemma {:induction false} KeptAppend(a: string, b: string)
    ensures Kept(a + b) == Kept(a) + Kept(b)
  {
    if a == "" {
      assert a + b == b;
    } else {
      assert (a + b)[0] == a[0] && (a + b)[1..] == a[1..] + b;
      KeptAppend(a[1..], b);
      Assoc(if Edge(a[0]) then "" else [a[0]], Kept(a[1..]), Kept(b));
    }
  }

  lemma {:induction false} CollapseKeeps(s: string)
    ensures Kept(CollapseRuns(s)) == Kept(s)
    decreases |s|
  {
    if s != "" {
      CollapseKeeps(s[1..]);
      if !PairAt(s, 0) {
        var c := CollapseRuns(s);
        assert c[0] == s[0] && c[1..] == CollapseRuns(s[1..]);
      }
    }
  }

  lemma {:induction false} TrimLeftKeeps(s: string)
    ensures Kept(TrimLeft(s)) == Kept(s)
    decreases |s|
  {
    if s != "" && Edge(s[0]) {
      TrimLeftKeeps(s[1..]);
    }
  }

  lemma {:induction false} TrimRightKeeps(s: string)
    ensures Kept(TrimRight(s)) == Kept(s)
    decreases |s|
  {
    if s != "" && Edge(s[|s| - 1]) {
      var n := |s| - 1;
      TrimRightKeeps(s[..n]);
      assert s == s[..n] + [s[n]] && Kept([s[n]]) == "";
      KeptAppend(s[..n], [s[n]]);
    }
  }

  /** Apart from underscores and dots sanitizing keeps every rewritten character, in
      order; when there is none the name is "file". */
  lemma SanitizingKeepsTheRest(name: string)
    ensures var kept := Kept(Rewritten(name));
            if kept == "" then Sanitized(name) == "file" else Kept(Sanitized(name)) == kept
  {
    var c := CollapseRuns(Rewritten(name));
    CollapseKeeps(Rewritten(name));
    TrimLeftKeeps(c);
    TrimRightKeeps(TrimLeft(c));
    TrimRightIsPrefix(TrimLeft(c));
    var t := Trim(c);
    if t != "" {
      KeptAppend(t[..|t| - 1], [t[|t| - 1]]);
      assert t == t[..|t| - 1] + [t[|t| - 1]];
      assert Kept([t[|t| - 1]]) == [t[|t| - 1]];
    }
  }
}
