/** From the bucket token file to the bucket a request may act on
    (pkg/config/tokens.go, pkg/bucket/name.go, service/principal.go,
    handler/bucket_context.go). */
module Credentials {
  import opened Options
  import opened Strings
  import opened KeyMapping

  // ----- The token file --------------------------------------------------------------------

  predicate NameChar(c: char) { 'a' <= c <= 'z' || '0' <= c <= '9' }

  /** The pattern ^[a-z0-9][a-z0-9-]{1,61}[a-z0-9]$. */
  predicate ValidName(name: string) {
    && 3 <= |name| <= 63
    && NameChar(name[0]) && NameChar(name[|name| - 1])
    && forall i :: 0 <= i < |name| ==> NameChar(name[i]) || name[i] == '-'
  }

  /** The grammar has neither the separator of the key mapping nor that of the
      credential. */
  lemma ValidNamesHaveNoSeparator(name: string)
    requires ValidName(name)
    ensures NoSlash(name) && ':' !in name && ' ' !in name
  {
    forall c | c in name ensures NameChar(c) || c == '-' {
      var i :| 0 <= i < |name| && name[i] == c;
    }
  }

  function Repeat(c: char, n: nat): string { seq(n, _ => c) }

  /** Names at the edge of the grammar. */
  lemma NameBoundaries()
    ensures ValidName("a-1") && ValidName("0-z") && ValidName(Repeat('a', 63))
    ensures !ValidName("ab") && !ValidName(Repeat('a', 64)) && !ValidName("-ab") && !ValidName("ab-")
    ensures !ValidName("Abc") && !ValidName("a_c") && !ValidName("a.c") && !ValidName("a/c") && !ValidName("a:c")
  {
    assert "Abc"[0] == 'A' && "a_c"[1] == '_' && "a.c"[1] == '.' && "a/c"[1] == '/' && "a:c"[1] == ':';
    assert "-ab"[0] == '-' && "ab-"[2] == '-';
  }

  lemma SecretBoundaries(c: char)
    requires c < '\U{0080}'
    ensures MIN_TOKEN == 32 && ByteLength(Repeat(c, 32)) == 32 && ByteLength(Repeat(c, 31)) == 31
  {
    ByteLengthBounds(Repeat(c, 32));
    ByteLengthBounds(Repeat(c, 31));
  }

  datatype Entry = Entry(bucket: string, token: string, expiresAt: string)

  /** What the environment computes: SHA-256 and the RFC 3339 parser. Times count
      from Go's zero time, which `IsZero` recognises. */
  datatype Env = Env(sha: string -> nat, parse: string -> Option<int>)

  const ZERO_TIME: int := 0
  const MIN_TOKEN: nat := 32

  datatype Credential = Credential(digest: nat, expiresAt: int)

  datatype File = Missing | Unreadable | Blank | Unparseable | Parsed(entries: seq<Entry>)

  datatype LoadError =
    | CannotRead | CannotParse
    | BadName(i: nat) | ShortToken(i: nat) | Duplicate(i: nat) | BadExpiry(i: nat)
  datatype Loaded = Count(n: nat) | LoadFailed(error: LoadError)

  /** An entry as the loader reads it, its fields trimmed. */
  datatype Definition = Definition(name: string, secret: string, expiry: string)

  function Define(e: Entry): Definition {
    Definition(TrimSpace(e.bucket), TrimSpace(e.token), TrimSpace(e.expiresAt))
  }

  function Definitions(entries: seq<Entry>): (defs: seq<Definition>)
    ensures |defs| == |entries|
    ensures forall i :: 0 <= i < |entries| ==> defs[i] == Define(entries[i])
  {
    seq(|entries|, i requires 0 <= i < |entries| => Define(entries[i]))
  }

  predicate ExpiryOk(env: Env, d: Definition) { d.expiry == "" || env.parse(d.expiry).Some? }

  /** A definition that passes every check on its own. */
  predicate Sound(env: Env, d: Definition) {
    ValidName(d.name) && ByteLength(d.secret) >= MIN_TOKEN && ExpiryOk(env, d)
  }

  function CredentialOf(env: Env, d: Definition): Credential
    requires ExpiryOk(env, d)
  {
    Credential(env.sha(d.secret), if d.expiry == "" then ZERO_TIME else env.parse(d.expiry).value)
  }

  /** A file loads when every definition is sound and no bucket is named twice. */
  predicate Loadable(env: Env, defs: seq<Definition>) {
    && (forall i :: 0 <= i < |defs| ==> Sound(env, defs[i]))
    && (forall i, j :: 0 <= i < j < |defs| ==> defs[i].name != defs[j].name)
  }

  /** `m` is the table a loadable file stands for. */
  ghost predicate IsTable(env: Env, defs: seq<Definition>, m: map<string, Credential>) {
    && (forall d :: d in defs ==> Sound(env, d) && d.name in m && m[d.name] == CredentialOf(env, d))
    && (forall b :: b in m ==> exists d :: d in defs && d.name == b)
  }

  /** The table with one more definition, unless that one is refused. */
  function Extended(env: Env, d: Definition, m: map<string, Credential>): Option<map<string, Credential>> {
    if Sound(env, d) && d.name !in m then Some(m[d.name := CredentialOf(env, d)]) else None
  }

  /** The table after the first `i` definitions, or None once one was refused. */
  function Loading(env: Env, defs: seq<Definition>, i: nat): Option<map<string, Credential>>
    requires i <= |defs|
  {
    if i == 0 then Some(map[])
    else
      match Loading(env, defs, i - 1)
      case None => None
      case Some(m) => Extended(env, defs[i - 1], m)
  }

  lemma {:induction false} RefusalStands(env: Env, defs: seq<Definition>, i: nat)
    requires i <= |defs| && Loading(env, defs, i).None?
    ensures Loading(env, defs, |defs|).None?
    decreases |defs| - i
  {
    if i < |defs| {
      RefusalStands(env, defs, i + 1);
    }
  }

  lemma AddDefinition(env: Env, defs: seq<Definition>, d: Definition, m: map<string, Credential>)
    requires Loadable(env, defs) && IsTable(env, defs, m) && Sound(env, d) && d.name !in m
    ensures Loadable(env, defs + [d]) && IsTable(env, defs + [d], m[d.name := CredentialOf(env, d)])
  {
    forall j | 0 <= j < |defs| ensures defs[j].name != d.name {
      assert defs[j] in defs;
    }
  }

  lemma RefusedDefinition(env: Env, defs: seq<Definition>, d: Definition, m: map<string, Credential>)
    requires IsTable(env, defs, m) && (!Sound(env, d) || d.name in m)
    ensures !Loadable(env, defs + [d])
  {
    var n := |defs|;
    assert (defs + [d])[n] == d;
    if Sound(env, d) {
      var other :| other in defs && other.name == d.name;
      var j :| 0 <= j < n && defs[j] == other;
      assert (defs + [d])[j].name == (defs + [d])[n].name;
    }
  }

  lemma AllButLast<T>(s: seq<T>, i: nat)
    requires 0 < i <= |s|
    ensures s[..i] == s[..i - 1] + [s[i - 1]]
  {
  }

  lemma NotLoadableFrom(env: Env, init: seq<Definition>, d: Definition)
    requires !Loadable(env, init)
    ensures !Loadable(env, init + [d])
  {
    assert forall i :: 0 <= i < |init| ==> init[i] == (init + [d])[i];
  }

  /** One entry at a time refuses exactly the files that are not loadable, and
      otherwise builds their table. */
  lemma {:induction false} LoadingMeaning(env: Env, defs: seq<Definition>, i: nat)
    requires i <= |defs|
    ensures match Loading(env, defs, i)
            case None => !Loadable(env, defs[..i])
            case Some(m) => Loadable(env, defs[..i]) && IsTable(env, defs[..i], m) && |m| == i
  {
    if i > 0 {
      LoadingMeaning(env, defs, i - 1);
      var init, d := defs[..i - 1], defs[i - 1];
      AllButLast(defs, i);
      match Loading(env, defs, i - 1)
      case None => NotLoadableFrom(env, init, d);
      case Some(m) =>
        if Sound(env, d) && d.name !in m {
          AddDefinition(env, init, d, m);
        } else {
          RefusedDefinition(env, init, d, m);
        }
    }
  }

  lemma AllDefinitions(env: Env, defs: seq<Definition>)
    ensures match Loading(env, defs, |defs|)
            case None => !Loadable(env, defs)
            case Some(m) => Loadable(env, defs) && IsTable(env, defs, m) && |m| == |defs|
  {
    LoadingMeaning(env, defs, |defs|);
    assert defs[..|defs|] == defs;
  }

  lemma RefusedFile(env: Env, defs: seq<Definition>, i: nat)
    requires i <= |defs| && Loading(env, defs, i).None?
    ensures !Loadable(env, defs)
  {
    RefusalStands(env, defs, i);
    AllDefinitions(env, defs);
  }

  datatype Checked = Accepted(credential: Credential) | Rejected(error: LoadError)

  /** `error` is the first failing check of definition `i`, in the loader's order:
      name, length, duplicate, expiry. */
  predicate FaultAt(env: Env, d: Definition, i: nat, named: bool, error: LoadError) {
    match error
    case BadName(j) => j == i && !ValidName(d.name)
    case ShortToken(j) => j == i && ValidName(d.name) && ByteLength(d.secret) < MIN_TOKEN
    case Duplicate(j) => j == i && ValidName(d.name) && ByteLength(d.secret) >= MIN_TOKEN && named
    case BadExpiry(j) =>
      j == i && ValidName(d.name) && ByteLength(d.secret) >= MIN_TOKEN && !named && !ExpiryOk(env, d)
    case _ => false
  }

  /** The checks of one entry, in the loader's order. */
  method CheckEntry(env: Env, d: Definition, i: nat, loaded: map<string, Credential>) returns (r: Checked)
    ensures Extended(env, d, loaded) == if r.Accepted? then Some(loaded[d.name := r.credential]) else None
    ensures r.Rejected? ==> FaultAt(env, d, i, d.name in loaded, r.error)
  {
    if !ValidName(d.name) { return Rejected(BadName(i)); }
    if ByteLength(d.secret) < MIN_TOKEN { return Rejected(ShortToken(i)); }
    if d.name in loaded { return Rejected(Duplicate(i)); }
    var expiresAt := ZERO_TIME;
    if d.expiry != "" {
      var parsed := env.parse(d.expiry);
      if parsed.None? { return Rejected(BadExpiry(i)); }
      expiresAt := parsed.value;
    }
    return Accepted(Credential(env.sha(d.secret), expiresAt));
  }

  /** `error` is about the first entry that is not acceptable after those before it. */
  ghost predicate FirstFault(env: Env, defs: seq<Definition>, error: LoadError) {
    exists i :: 0 <= i < |defs| && Loadable(env, defs[..i]) &&
      FaultAt(env, defs[i], i, NamedBefore(defs, i), error)
  }

  ghost predicate NamedBefore(defs: seq<Definition>, i: nat)
    requires i < |defs|
  {
    exists d :: d in defs[..i] && d.name == defs[i].name
  }

  datatype Entries = Table(m: map<string, Credential>) | Refused(error: LoadError)

  lemma FaultIsFirst(env: Env, defs: seq<Definition>, i: nat, m: map<string, Credential>, error: LoadError)
    requires i < |defs| && Loading(env, defs, i) == Some(m) && FaultAt(env, defs[i], i, defs[i].name in m, error)
    ensures FirstFault(env, defs, error)
  {
    LoadingMeaning(env, defs, i);
    assert NamedBefore(defs, i) <==> defs[i].name in m;
  }

  /** Either every entry is loaded or the whole file is refused for its first fault. */
  method LoadEntries(env: Env, defs: seq<Definition>) returns (r: Entries)
    ensures r.Table? <==> Loadable(env, defs)
    ensures r.Table? ==> IsTable(env, defs, r.m) && |r.m| == |defs|
    ensures r.Refused? ==> FirstFault(env, defs, r.error)
  {
    var loaded: map<string, Credential> := map[];
    for i := 0 to |defs|
      invariant Loading(env, defs, i) == Some(loaded)
    {
      var d := defs[i];
      var checked := CheckEntry(env, d, i, loaded);
      if checked.Rejected? {
        RefusedFile(env, defs, i + 1);
        FaultIsFirst(env, defs, i, loaded, checked.error);
        return Refused(checked.error);
      }
      loaded := loaded[d.name := checked.credential];
    }
    AllDefinitions(env, defs);
    return Table(loaded);
  }

  /** The package-level table of loaded tokens. */
  class TokenStore {
    var bucketTokens: map<string, Credential>

    constructor ()
      ensures bucketTokens == map[]
    {
      bucketTokens := map[];
    }

    /** All or nothing: either every entry is loaded or none is, whatever was
        loaded before. */
    method LoadBucketTokens(env: Env, file: File) returns (r: Loaded)
      modifies this
      ensures r.Count? <==> file.Missing? || file.Blank? || (file.Parsed? && Loadable(env, Definitions(file.entries)))
      ensures r.Count? && file.Parsed? ==>
                IsTable(env, Definitions(file.entries), bucketTokens) && r.n == |file.entries| == |bucketTokens|
      ensures !(r.Count? && file.Parsed?) ==> bucketTokens == map[]
      ensures r.Count? && !file.Parsed? ==> r.n == 0
      ensures r.LoadFailed? ==>
                match file
                case Unreadable => r.error == CannotRead
                case Unparseable => r.error == CannotParse
                case Parsed(entries) => FirstFault(env, Definitions(entries), r.error)
                case _ => false
    {
      bucketTokens := map[];
      match file {
        case Missing => return Count(0);
        case Unreadable => return LoadFailed(CannotRead);
        case Blank => return Count(0);
        case Unparseable => return LoadFailed(CannotParse);
        case Parsed(entries) =>
          var loaded := LoadEntries(env, Definitions(entries));
          if loaded.Refused? {
            return LoadFailed(loaded.error);
          }
          bucketTokens := loaded.m;
          return Count(|loaded.m|);
      }
    }
  }

  lemma {:induction false} Repeated<T>(s: seq<T>, x: T)
    requires multiset(s)[x] >= 2
    ensures exists i, j :: 0 <= i < j < |s| && s[i] == x && s[j] == x
  {
    assert s == [s[0]] + s[1..];
    if s[0] == x {
      assert x in multiset(s[1..]);
      assert x in s[1..];
      var j :| 0 <= j < |s[1..]| && s[1..][j] == x;
      assert s[0] == x && s[j + 1] == x;
    } else {
      Repeated(s[1..], x);
      var i, j :| 0 <= i < j < |s[1..]| && s[1..][i] == x && s[1..][j] == x;
      assert s[i + 1] == x && s[j + 1] == x;
    }
  }

  lemma SameMembers<T>(s: seq<T>, t: seq<T>)
    requires multiset(s) == multiset(t)
    ensures forall x :: x in s <==> x in t
  {
    forall x ensures x in s <==> x in t {
      assert x in s <==> x in multiset(s);
    }
  }

  lemma NamesStayDistinct(env: Env, defs: seq<Definition>, reordered: seq<Definition>, i: nat, j: nat)
    requires multiset(defs) == multiset(reordered) && Loadable(env, defs)
    requires i < j < |reordered|
    ensures reordered[i].name != reordered[j].name
  {
    SameMembers(defs, reordered);
    var x, y := reordered[i], reordered[j];
    assert x in defs && y in defs;
    if x == y {
      TwiceInMultiset(reordered, i, j);
      Repeated(defs, x);
    }
  }

  /** Whether a file loads does not depend on the order of its entries. */
  lemma LoadabilityIgnoresOrder(env: Env, defs: seq<Definition>, reordered: seq<Definition>)
    requires multiset(defs) == multiset(reordered) && Loadable(env, defs)
    ensures Loadable(env, reordered)
  {
    SameMembers(defs, reordered);
    forall i | 0 <= i < |reordered| ensures Sound(env, reordered[i]) {
      assert reordered[i] in defs;
    }
    forall i, j | 0 <= i < j < |reordered| ensures reordered[i].name != reordered[j].name {
      NamesStayDistinct(env, defs, reordered, i, j);
    }
  }

  /** Nor does the table it loads. */
  lemma TableIgnoresOrder(env: Env, defs: seq<Definition>, reordered: seq<Definition>, m: map<string, Credential>,
                          m': map<string, Credential>)
    requires multiset(defs) == multiset(reordered)
    requires IsTable(env, defs, m) && IsTable(env, reordered, m')
    ensures m == m'
  {
    SameMembers(defs, reordered);
    forall b ensures b in m <==> b in m' {}
    forall b | b in m ensures m[b] == m'[b] {
      var d :| d in defs && d.name == b;
      assert d in reordered;
    }
  }

  lemma TwiceInMultiset<T>(s: seq<T>, i: nat, j: nat)
    requires i < j < |s| && s[i] == s[j]
    ensures multiset(s)[s[i]] >= 2
  {
    assert s == s[..j] + s[j..];
    assert s[..j][i] in multiset(s[..j]) && s[j..][0] in multiset(s[j..]);
  }

  // ----- The request ----------------------------------------------------------------------------

  datatype Principal = General | Scoped(bucket: string)
  datatype AuthError = NoToken | InvalidAuthFormat | InvalidToken
  datatype Auth = Granted(principal: Principal) | Denied(error: AuthError)

  /** The second of exactly two space-separated parts. */
  function BearerToken(header: string): Option<string> {
    var i := IndexOf(header, ' ');
    if i == |header| then None
    else if IndexOf(header[i + 1..], ' ') < |header| - i - 1 then None
    else Some(header[i + 1..])
  }

  predicate TokenValid(client: string, server: string) {
    TrimSpace(client) != "" && TrimSpace(client) == TrimSpace(server)
  }

  /** The zero expiry never passes. */
  predicate Live(c: Credential, now: int) { c.expiresAt == ZERO_TIME || now < c.expiresAt }

  predicate BucketTokenMatches(env: Env, tokens: map<string, Credential>, bucket: string, secret: string, now: int) {
    bucket in tokens && env.sha(secret) == tokens[bucket].digest && Live(tokens[bucket], now)
  }

  function ResolvePrincipal(env: Env, token: string, tokens: map<string, Credential>, header: string, now: int): Auth {
    if header == "" then Denied(NoToken)
    else
      match BearerToken(header)
      case None => Denied(InvalidAuthFormat)
      case Some(raw) =>
        if TokenValid(raw, token) then Granted(General)
        else ResolvePair(env, tokens, TrimSpace(raw), now)
  }

  /** `strings.Cut` at the first colon, then the lookup. */
  function ResolvePair(env: Env, tokens: map<string, Credential>, pair: string, now: int): Auth {
    var colon := IndexOf(pair, ':');
    if colon == |pair| then Denied(InvalidToken)
    else if !BucketTokenMatches(env, tokens, pair[..colon], pair[colon + 1..], now) then Denied(InvalidToken)
    else Granted(Scoped(pair[..colon]))
  }

  /** The bucket the request acts on, or None when the token may not. */
  function ResolveBucket(p: Principal, requested: string): Option<string> {
    var wanted := TrimSpace(requested);
    match p
    case General => Some(wanted)
    case Scoped(bucket) => if wanted == "" || wanted == bucket then Some(bucket) else None
  }

  // ----- Round trip and confinement --------------------------------------------------------------

  function Pair(d: Definition): string { d.name + ":" + d.secret }

  lemma {:induction false} LongEnoughIsNotEmpty(s: string)
    requires ByteLength(s) >= MIN_TOKEN
    ensures s != ""
  {
  }

  /** The credential as sent is split at the bucket's colon even when the secret
      contains colons. */
  lemma PairSplits(env: Env, d: Definition)
    requires Sound(env, d)
    ensures IndexOf(Pair(d), ':') == |d.name| && Pair(d)[..|d.name|] == d.name && Pair(d)[|d.name| + 1..] == d.secret
    ensures ' ' in Pair(d) <==> ' ' in d.secret
  {
    forall i | 0 <= i < |d.name| ensures d.name[i] != ':' && d.name[i] != ' ' {
      assert NameChar(d.name[i]) || d.name[i] == '-';
    }
    IndexAfter(d.name, ':', d.secret);
  }

  /** Trimming the header's credential leaves it alone. */
  lemma PairIsTrimmed(env: Env, e: Entry)
    requires Sound(env, Define(e))
    ensures TrimSpace(Pair(Define(e))) == Pair(Define(e)) != ""
  {
    var d := Define(e);
    LongEnoughIsNotEmpty(d.secret);
    assert Pair(d)[0] == d.name[0] && Pair(d)[|Pair(d)| - 1] == d.secret[|d.secret| - 1];
    assert NameChar(d.name[0]);
  }

  lemma BearerOf(raw: string)
    ensures BearerToken("Bearer " + raw) == if ' ' in raw then None else Some(raw)
  {
    var header := "Bearer" + [' '] + raw;
    assert header == "Bearer " + raw;
    IndexAfter("Bearer", ' ', raw);
    assert header[7..] == raw;
    var i := IndexOf(raw, ' ');
    assert raw[..i] == raw || i < |raw|;
  }

  lemma PairOfEntry(env: Env, defs: seq<Definition>, tokens: map<string, Credential>, d: Definition, now: int)
    requires IsTable(env, defs, tokens) && d in defs
    ensures ResolvePair(env, tokens, Pair(d), now) ==
              if Live(CredentialOf(env, d), now) then Granted(Scoped(d.name)) else Denied(InvalidToken)
  {
    PairSplits(env, d);
  }

  /** Exactly when a loaded entry's own credential opens its bucket: the secret
      has no space, the pair is not the general TOKEN, and it has not expired. */
  lemma LoadedCredentialOpensItsBucket(env: Env, token: string, defs: seq<Definition>,
                                       tokens: map<string, Credential>, e: Entry, now: int)
    requires IsTable(env, defs, tokens) && Define(e) in defs
    ensures var d := Define(e);
            ResolvePrincipal(env, token, tokens, "Bearer " + Pair(d), now) == Granted(Scoped(d.name)) <==>
              ' ' !in d.secret && Pair(d) != TrimSpace(token) && Live(CredentialOf(env, d), now)
  {
    var d := Define(e);
    PairSplits(env, d);
    PairIsTrimmed(env, e);
    BearerOf(Pair(d));
    PairOfEntry(env, defs, tokens, d, now);
  }

  /** A credential is the general TOKEN exactly when it is that TOKEN up to
      surrounding space, whatever is loaded, even when it reads like a pair. */
  lemma GeneralTokenIsNeverReinterpreted(env: Env, token: string, tokens: map<string, Credential>, raw: string,
                                         now: int)
    ensures ResolvePrincipal(env, token, tokens, "Bearer " + raw, now) == Granted(General) <==>
              ' ' !in raw && TrimSpace(raw) == TrimSpace(token) != ""
  {
    BearerOf(raw);
  }

  lemma PairIsConfined(env: Env, tokens: map<string, Credential>, pair: string, now: int)
    requires ResolvePair(env, tokens, pair, now).Granted?
    ensures var p := ResolvePair(env, tokens, pair, now).principal;
            && p.Scoped? && p.bucket in tokens && Live(tokens[p.bucket], now)
            && exists secret :: pair == p.bucket + ":" + secret && env.sha(secret) == tokens[p.bucket].digest
  {
    var colon := IndexOf(pair, ':');
    assert pair == pair[..colon] + ":" + pair[colon + 1..];
  }

  /** `secret`, presented for the bucket of `d`, is a live secret of that bucket
      as far as digests can tell. */
  predicate Opens(env: Env, d: Definition, presented: string, secret: string, now: int) {
    && presented == d.name + ":" + secret
    && Sound(env, d) && env.sha(secret) == env.sha(d.secret) && Live(CredentialOf(env, d), now)
  }

  /** Whatever the header says, a caller granted a bucket presented a secret with
      the digest of a loaded, unexpired entry for exactly that bucket. */
  lemma ScopedCallersAreConfined(env: Env, token: string, defs: seq<Definition>, tokens: map<string, Credential>,
                                 header: string, now: int)
    requires IsTable(env, defs, tokens)
    requires ResolvePrincipal(env, token, tokens, header, now).Granted?
    requires ResolvePrincipal(env, token, tokens, header, now).principal.Scoped?
    ensures var p := ResolvePrincipal(env, token, tokens, header, now).principal;
            BearerToken(header).Some? &&
            exists d, secret ::
              && d in defs && d.name == p.bucket
              && Opens(env, d, TrimSpace(BearerToken(header).value), secret, now)
  {
    var pair := TrimSpace(BearerToken(header).value);
    PairIsConfined(env, tokens, pair, now);
    var p := ResolvePair(env, tokens, pair, now).principal;
    var secret :| pair == p.bucket + ":" + secret && env.sha(secret) == tokens[p.bucket].digest;
    var d :| d in defs && d.name == p.bucket;
    assert Opens(env, d, pair, secret, now);
  }

  /** From the header to the bucket: whatever a scoped caller asks for, the bucket
      it acts on is never empty and is that of a loaded, unexpired entry with the
      digest of the secret it presented. */
  lemma RequestsStayInScope(env: Env, token: string, defs: seq<Definition>, tokens: map<string, Credential>,
                            header: string, requested: string, now: int)
    requires IsTable(env, defs, tokens)
    requires var auth := ResolvePrincipal(env, token, tokens, header, now);
             auth.Granted? && auth.principal.Scoped? && ResolveBucket(auth.principal, requested).Some?
    ensures var b := ResolveBucket(ResolvePrincipal(env, token, tokens, header, now).principal, requested).value;
            b != "" && BearerToken(header).Some? &&
            exists d, secret ::
              && d in defs && d.name == b
              && Opens(env, d, TrimSpace(BearerToken(header).value), secret, now)
  {
    ScopedCallersAreConfined(env, token, defs, tokens, header, now);
  }

  /** A loaded, unexpired credential gives access to its own bucket, asked for by
      name or not at all, and to no other. */
  lemma ScopedCallersReachTheirBucket(env: Env, token: string, defs: seq<Definition>, tokens: map<string, Credential>,
                                      e: Entry, requested: string, now: int)
    requires IsTable(env, defs, tokens) && Define(e) in defs && Live(CredentialOf(env, Define(e)), now)
    requires ' ' !in Define(e).secret && Pair(Define(e)) != TrimSpace(token)
    ensures var d := Define(e);
            var auth := ResolvePrincipal(env, token, tokens, "Bearer " + Pair(d), now);
            auth.Granted? && ResolveBucket(auth.principal, requested) ==
              if TrimSpace(requested) == "" || TrimSpace(requested) == d.name then Some(d.name) else None
  {
    LoadedCredentialOpensItsBucket(env, token, defs, tokens, e, now);
  }

  /** The general TOKEN gives access to whatever bucket is asked for, or to the
      choice of none. */
  lemma GeneralCallersReachAnyBucket(env: Env, token: string, tokens: map<string, Credential>, raw: string,
                                     requested: string, before: string, after: string, now: int)
    requires TrimSpace(raw) == TrimSpace(token) != "" && ' ' !in raw
    requires TrimSpace(requested) == requested && AllSpace(before) && AllSpace(after)
    ensures var auth := ResolvePrincipal(env, token, tokens, "Bearer " + raw, now);
            auth.Granted? && ResolveBucket(auth.principal, before + requested + after) == Some(requested)
  {
    GeneralTokenIsNeverReinterpreted(env, token, tokens, raw, now);
    TrimSpaceOfSurrounded(before, requested, after);
  }

  /** An expiry at Go's zero instant is read back as no expiry at all: from the
      header on, a loaded entry with an expiry opens its bucket until that instant,
      or for ever if it is the zero one. */
  lemma ZeroInstantNeverExpires(env: Env, token: string, defs: seq<Definition>, tokens: map<string, Credential>,
                                e: Entry, now: int)
    requires IsTable(env, defs, tokens) && Define(e) in defs && Define(e).expiry != ""
    requires ' ' !in Define(e).secret && Pair(Define(e)) != TrimSpace(token)
    ensures var d := Define(e);
            && env.parse(d.expiry).Some?
            && var expiry := env.parse(d.expiry).value;
               ResolvePrincipal(env, token, tokens, "Bearer " + Pair(d), now) == Granted(Scoped(d.name)) <==>
                 now < expiry || expiry == ZERO_TIME
  {
    LoadedCredentialOpensItsBucket(env, token, defs, tokens, e, now);
  }
}
