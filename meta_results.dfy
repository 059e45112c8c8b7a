/**
 * Response side of the meta protocol flag codec: decoding the flag tokens of
 * one response line into a MetaResult record.
 *
 * The parser walks the tokens left to right. Each token's first char picks
 * the field it updates and the rest of the token is the argument. Only a bad
 * `f` argument stops the walk; the errors of `c`, `l`, `s`, `t` and unknown
 * keys are stored in `err` and a later such token overwrites them.
 */
module MetaResults {
  import opened Wrappers
  import opened Strconv

  /** The CAS token of a response, with a marker saying whether a `c` flag was seen. */
  datatype CasToken = CasToken(value: int64, setted: bool)

  /** The record the parser fills in, one field per response flag. */
  datatype MetaResult = MetaResult(
    won: bool,          // W (true) / Z (false)
    stale: bool,        // X
    key: string,        // k
    opaqueToken: string, // O
    casToken: CasToken, // c
    flags: uint32,      // f
    hit: bool,          // h
    lastAccess: uint64, // l
    size: uint64,       // s
    ttl: uint64         // t
  )

  /** The zero value of MetaResult the parser starts from. */
  const ZeroResult := MetaResult(false, false, "", "", CasToken(0, false), 0, false, 0, 0, 0)

  /** The errors the parser reports: a strconv error, or a key it does not know. */
  datatype MetaError = NumErr(e: NumError) | InvalidFlag(k: char)

  /** Keys whose token assigns `err`: c, l, s, t and every key the parser does not know. */
  const ErrorKeys: iset<char> := iset c | c !in {'W', 'Z', 'X', 'k', 'O', 'f', 'h'}

  /** A token the parser can read without a run-time panic. */
  predicate WellFormedToken(t: string)
  {
    |t| > 0 && (t[0] == 'h' ==> |t| > 1)
  }

  predicate AllWellFormed(ps: seq<string>)
  {
    forall j :: 0 <= j < |ps| ==> WellFormedToken(ps[j])
  }

  /** An `f` token whose argument is not a 32-bit unsigned decimal: the parser returns on it. */
  predicate IsBadFlagsToken(t: string)
  {
    |t| > 0 && t[0] == 'f' && ParseUint(t[1..], 32).err.Some?
  }

  /** The index of the first bad `f` token, or |ss| when there is none. */
  function FirstStop(ss: seq<string>): (n: nat)
    ensures n <= |ss|
    ensures n < |ss| ==> IsBadFlagsToken(ss[n])
    ensures forall j :: 0 <= j < n ==> !IsBadFlagsToken(ss[j])
    decreases |ss|
  {
    if ss == [] || IsBadFlagsToken(ss[0]) then 0 else 1 + FirstStop(ss[1..])
  }

  /** Every token the parser reaches is well formed (tokens after an early return are never read). */
  predicate Parsable(ss: seq<string>)
    decreases |ss|
  {
    ss == [] || IsBadFlagsToken(ss[0]) || (WellFormedToken(ss[0]) && Parsable(ss[1..]))
  }

  /** A well-formed token that is not a bad `f` token: the parser reads it and goes on. */
  predicate CleanToken(t: string)
  {
    WellFormedToken(t) && !IsBadFlagsToken(t)
  }

  /** Tokens the parser reads one after another without returning early. */
  predicate Clean(ps: seq<string>)
  {
    forall j :: 0 <= j < |ps| ==> CleanToken(ps[j])
  }

  /** Parsable says exactly that the tokens before the first bad `f` token are well formed. */
  lemma {:induction false} ParsableReached(ss: seq<string>)
    ensures Parsable(ss) <==> AllWellFormed(ss[..FirstStop(ss)])
    decreases |ss|
  {
    if ss != [] && !IsBadFlagsToken(ss[0]) {
      ParsableReached(ss[1..]);
      var n := FirstStop(ss);
      assert ss[..n] == [ss[0]] + ss[1..][..n - 1];
      assert forall j :: 1 <= j < n ==> ss[..n][j] == ss[1..][..n - 1][j - 1];
    }
  }

  /** The index of the last token whose key is in keys. */
  function LastOf(ps: seq<string>, keys: iset<char>): (r: Option<nat>)
    requires forall j :: 0 <= j < |ps| ==> |ps[j]| > 0
    ensures r.Some? ==>
      && r.value < |ps| && ps[r.value][0] in keys
      && forall j :: r.value < j < |ps| ==> ps[j][0] !in keys
    ensures r.None? ==> forall j :: 0 <= j < |ps| ==> ps[j][0] !in keys
    decreases |ps|
  {
    if ps == [] then None
    else if ps[|ps| - 1][0] in keys then Some(|ps| - 1)
    else LastOf(ps[..|ps| - 1], keys)
  }

  /**
   * The record after reading the tokens ps with no early return: each field
   * holds what the last token of its key put there, or its zero value.
   */
  function Accumulated(ps: seq<string>): MetaResult
    requires AllWellFormed(ps)
  {
    MetaResult(
      won := match LastOf(ps, iset{'W', 'Z'}) case Some(j) => ps[j][0] == 'W' case None => false,
      stale := LastOf(ps, iset{'X'}).Some?,
      key := match LastOf(ps, iset{'k'}) case Some(j) => ps[j][1..] case None => "",
      opaqueToken := match LastOf(ps, iset{'O'}) case Some(j) => ps[j][1..] case None => "",
      casToken := match LastOf(ps, iset{'c'})
        case Some(j) => CasToken(ParseInt(ps[j][1..]).value, true)
        case None => CasToken(0, false),
      flags := match LastOf(ps, iset{'f'}) case Some(j) => ParseUint(ps[j][1..], 32).value case None => 0,
      hit := match LastOf(ps, iset{'h'}) case Some(j) => ps[j][1] == '1' case None => false,
      lastAccess := match LastOf(ps, iset{'l'}) case Some(j) => ParseUint(ps[j][1..], 64).value case None => 0,
      size := match LastOf(ps, iset{'s'}) case Some(j) => ParseUint(ps[j][1..], 64).value case None => 0,
      ttl := match LastOf(ps, iset{'t'}) case Some(j) => ParseUint(ps[j][1..], 64).value case None => 0
    )
  }

  function Lift(e: Option<NumError>): Option<MetaError>
  {
    match e case None => None case Some(n) => Some(NumErr(n))
  }

  /** What a token of a key in ErrorKeys leaves in `err`. */
  function TokenError(t: string): Option<MetaError>
    requires |t| > 0 && t[0] in ErrorKeys
  {
    match t[0]
    case 'c' => Lift(ParseInt(t[1..]).err)
    case 'l' | 's' | 't' => Lift(ParseUint(t[1..], 64).err)
    case _ => Some(InvalidFlag(t[0]))
  }

  /** The error left by the last token that assigns `err` (None when there is none). */
  function LastError(ps: seq<string>): Option<MetaError>
    requires forall j :: 0 <= j < |ps| ==> |ps[j]| > 0
  {
    match LastOf(ps, ErrorKeys) case None => None case Some(j) => TokenError(ps[j])
  }

  /** The error returned on a bad `f` token. */
  function FlagsError(t: string): MetaError
    requires IsBadFlagsToken(t)
  {
    NumErr(ParseUint(t[1..], 32).err.value)
  }

  /**
   * What obtainMetaFlagsResults returns: on a bad `f` token, the record of the
   * tokens before it and that token's error; otherwise the record of all tokens
   * and the error of the last token that assigns `err`.
   */
  function MetaFlagsResults(ss: seq<string>): (MetaResult, Option<MetaError>)
    requires Parsable(ss)
  {
    ParsableReached(ss);
    var n := FirstStop(ss);
    if n < |ss| then (Accumulated(ss[..n]), Some(FlagsError(ss[n])))
    else (Accumulated(ss), LastError(ss))
  }

  // ---------------------------------------------------------------------
  // The same record built one token at a time

  /** The record after one more token: the switch's update of the field its key names. */
  function Next(a: MetaResult, t: string): MetaResult
    requires WellFormedToken(t)
  {
    var k, v := t[0], t[1..];
    a.(won := if k == 'W' || k == 'Z' then k == 'W' else a.won,
       stale := k == 'X' || a.stale,
       key := if k == 'k' then v else a.key,
       opaqueToken := if k == 'O' then v else a.opaqueToken,
       casToken := if k == 'c' then CasToken(ParseInt(v).value, true) else a.casToken,
       flags := if k == 'f' then ParseUint(v, 32).value else a.flags,
       hit := if k == 'h' then v[0] == '1' else a.hit,
       lastAccess := if k == 'l' then ParseUint(v, 64).value else a.lastAccess,
       size := if k == 's' then ParseUint(v, 64).value else a.size,
       ttl := if k == 't' then ParseUint(v, 64).value else a.ttl)
  }

  /** `err` after one more token. */
  function NextErr(e: Option<MetaError>, t: string): Option<MetaError>
    requires |t| > 0
  {
    if t[0] in ErrorKeys then TokenError(t) else e
  }

  /**
   * What the parser returns when it holds the record mr and the error err
   * and the tokens ps are still to be read.
   */
  function Run(mr: MetaResult, err: Option<MetaError>, ps: seq<string>): (MetaResult, Option<MetaError>)
    requires Parsable(ps)
    decreases |ps|
  {
    if ps == [] then (mr, err)
    else if IsBadFlagsToken(ps[0]) then (mr, Some(FlagsError(ps[0])))
    else Run(Next(mr, ps[0]), NextErr(err, ps[0]), ps[1..])
  }

  // ---------------------------------------------------------------------
  // From the whole token list to one token at a time

  lemma LastOfSnoc(ps: seq<string>, t: string, keys: iset<char>)
    requires forall j :: 0 <= j < |ps| ==> |ps[j]| > 0
    requires |t| > 0
    ensures LastOf(ps + [t], keys) == if t[0] in keys then Some(|ps|) else LastOf(ps, keys)
  {
    assert (ps + [t])[..|ps|] == ps;
  }

  /** Reading one more token changes the flag and text field its key names, as the switch does. */
  lemma AccumulatedSnocMarks(ps: seq<string>, t: string)
    requires AllWellFormed(ps) && WellFormedToken(t)
    ensures AllWellFormed(ps + [t])
    ensures var a, b, k, v := Accumulated(ps), Accumulated(ps + [t]), t[0], t[1..];
      && b.won == (if k == 'W' || k == 'Z' then k == 'W' else a.won)
      && b.stale == (k == 'X' || a.stale)
      && b.key == (if k == 'k' then v else a.key)
      && b.opaqueToken == (if k == 'O' then v else a.opaqueToken)
      && b.hit == (if k == 'h' then v[0] == '1' else a.hit)
  {
    var qs := ps + [t];
    assert forall j :: 0 <= j < |ps| ==> qs[j] == ps[j];
    LastOfSnoc(ps, t, iset{'W', 'Z'});
    LastOfSnoc(ps, t, iset{'X'});
    LastOfSnoc(ps, t, iset{'k'});
    LastOfSnoc(ps, t, iset{'O'});
    LastOfSnoc(ps, t, iset{'h'});
  }

  /** Reading one more token changes the CAS or flags field when its key names it. */
  lemma AccumulatedSnocTokens(ps: seq<string>, t: string)
    requires AllWellFormed(ps) && WellFormedToken(t)
    ensures AllWellFormed(ps + [t])
    ensures var a, b, k, v := Accumulated(ps), Accumulated(ps + [t]), t[0], t[1..];
      && b.casToken == (if k == 'c' then CasToken(ParseInt(v).value, true) else a.casToken)
      && b.flags == (if k == 'f' then ParseUint(v, 32).value else a.flags)
  {
    var qs := ps + [t];
    assert forall j :: 0 <= j < |ps| ==> qs[j] == ps[j];
    LastOfSnoc(ps, t, iset{'c'});
    LastOfSnoc(ps, t, iset{'f'});
  }

  /** Reading one more token changes the last-access, size or TTL field when its key names it. */
  lemma AccumulatedSnocCounters(ps: seq<string>, t: string)
    requires AllWellFormed(ps) && WellFormedToken(t)
    ensures AllWellFormed(ps + [t])
    ensures var a, b, k, v := Accumulated(ps), Accumulated(ps + [t]), t[0], t[1..];
      && b.lastAccess == (if k == 'l' then ParseUint(v, 64).value else a.lastAccess)
      && b.size == (if k == 's' then ParseUint(v, 64).value else a.size)
      && b.ttl == (if k == 't' then ParseUint(v, 64).value else a.ttl)
  {
    var qs := ps + [t];
    assert forall j :: 0 <= j < |ps| ==> qs[j] == ps[j];
    LastOfSnoc(ps, t, iset{'l'});
    LastOfSnoc(ps, t, iset{'s'});
    LastOfSnoc(ps, t, iset{'t'});
  }

  /** Reading one more token sets `err` exactly when its key assigns it. */
  lemma LastErrorSnoc(ps: seq<string>, t: string)
    requires forall j :: 0 <= j < |ps| ==> |ps[j]| > 0
    requires |t| > 0
    ensures LastError(ps + [t]) == if t[0] in ErrorKeys then TokenError(t) else LastError(ps)
  {
    LastOfSnoc(ps, t, ErrorKeys);
    assert (ps + [t])[|ps|] == t;
    assert forall j :: 0 <= j < |ps| ==> (ps + [t])[j] == ps[j];
  }

  /** Reading one more token takes the declarative record and error to those of the longer list. */
  lemma NextIsSnoc(ps: seq<string>, t: string)
    requires AllWellFormed(ps) && WellFormedToken(t)
    ensures AllWellFormed(ps + [t])
    ensures Next(Accumulated(ps), t) == Accumulated(ps + [t])
    ensures NextErr(LastError(ps), t) == LastError(ps + [t])
  {
    AccumulatedSnocMarks(ps, t);
    AccumulatedSnocTokens(ps, t);
    AccumulatedSnocCounters(ps, t);
    LastErrorSnoc(ps, t);
  }

  /** Well-formed tokens that are not bad `f` tokens can be put before a parsable list. */
  lemma {:induction false} ParsableAppend(pre: seq<string>, ps: seq<string>)
    requires Clean(pre)
    requires Parsable(ps)
    ensures Parsable(pre + ps)
    decreases |pre|
  {
    if pre != [] {
      assert (pre + ps)[0] == pre[0];
      assert (pre + ps)[1..] == pre[1..] + ps;
      ParsableAppend(pre[1..], ps);
    } else {
      assert pre + ps == ps;
    }
  }

  /**
   * Reading the tokens one at a time, with an early return on a bad `f`
   * token, gives the declarative result.
   */
  lemma {:induction false} RunIsMetaFlagsResults(pre: seq<string>, ps: seq<string>)
    requires Clean(pre)
    requires Parsable(ps)
    ensures Parsable(pre + ps)
    ensures Run(Accumulated(pre), LastError(pre), ps) == MetaFlagsResults(pre + ps)
    decreases |ps|
  {
    ParsableAppend(pre, ps);
    if ps == [] {
      assert pre + ps == pre;
      ResultsWithoutStop(pre);
    } else if IsBadFlagsToken(ps[0]) {
      ResultsAtStop(pre, ps);
    } else {
      var t := ps[0];
      NextIsSnoc(pre, t);
      CleanSnoc(pre, t);
      assert pre + [t] + ps[1..] == pre + ps;
      RunIsMetaFlagsResults(pre + [t], ps[1..]);
    }
  }

  /** Without a bad `f` token every token is read. */
  lemma ResultsWithoutStop(ss: seq<string>)
    requires Clean(ss)
    requires Parsable(ss)
    ensures MetaFlagsResults(ss) == (Accumulated(ss), LastError(ss))
  {
    var n := FirstStop(ss);
    assert n == |ss|;
  }

  /** The first bad `f` token ends the parse: only the tokens before it count. */
  lemma ResultsAtStop(pre: seq<string>, ps: seq<string>)
    requires Clean(pre)
    requires ps != [] && IsBadFlagsToken(ps[0])
    requires Parsable(pre + ps)
    ensures MetaFlagsResults(pre + ps) == (Accumulated(pre), Some(FlagsError(ps[0])))
  {
    var ss := pre + ps;
    assert ss[|pre|] == ps[0];
    assert FirstStop(ss) == |pre|;
    assert ss[..|pre|] == pre;
  }

  /** Before any token the record is the zero record and there is no error. */
  lemma AccumulatedEmpty()
    ensures Accumulated([]) == ZeroResult && LastError([]) == None
  {
  }

  /** The parser's result, read token by token from the zero record, is the declarative one. */
  lemma ParserMeetsSpec(ss: seq<string>)
    requires Parsable(ss)
    ensures Run(ZeroResult, None, ss) == MetaFlagsResults(ss)
  {
    AccumulatedEmpty();
    assert Clean([]);
    RunIsMetaFlagsResults([], ss);
    assert [] + ss == ss;
  }

  // ---------------------------------------------------------------------
  // Properties of the parser's result

  lemma CleanParsable(ps: seq<string>)
    requires Clean(ps)
    ensures Parsable(ps)
  {
    ParsableAppend(ps, []);
    assert ps + [] == ps;
  }

  /**
   * A bad `f` token ends the parse: the tokens after it are never read,
   * the record (its flags field included) is the one of the tokens before it,
   * and the error is that token's.
   */
  lemma StopIgnoresRest(pre: seq<string>, t: string, post: seq<string>)
    requires Clean(pre) && IsBadFlagsToken(t)
    ensures Parsable(pre) && Parsable(pre + [t] + post)
    ensures MetaFlagsResults(pre + [t] + post) == (MetaFlagsResults(pre).0, Some(FlagsError(t)))
    ensures MetaFlagsResults(pre + [t] + post).0.flags == MetaFlagsResults(pre).0.flags
  {
    CleanParsable(pre);
    ParsableAppend(pre, [t] + post);
    assert pre + [t] + post == pre + ([t] + post);
    ResultsAtStop(pre, [t] + post);
    ResultsWithoutStop(pre);
  }

  /** casToken.setted holds exactly when a `c` token is read, whether or not its number parses. */
  lemma CasSetIffSeen(ss: seq<string>)
    requires Parsable(ss)
    ensures MetaFlagsResults(ss).0.casToken.setted <==>
      exists j :: 0 <= j < FirstStop(ss) && |ss[j]| > 0 && ss[j][0] == 'c'
  {
    ParsableReached(ss);
    var n := FirstStop(ss);
    var ps := ss[..n];
    assert forall j :: 0 <= j < n ==> ps[j] == ss[j];
    if n < |ss| {
      assert MetaFlagsResults(ss).0 == Accumulated(ps);
    } else {
      assert ps == ss;
    }
    var r := LastOf(ps, iset{'c'});
    if r.Some? {
      assert ss[r.value] == ps[r.value];
    }
  }

  /**
   * When no bad `f` token is read, the error is the one of the last token
   * that assigns `err`: a later c, l, s, t or unknown-key token overwrites
   * whatever an earlier one left.
   */
  lemma LaterErrorWins(pre: seq<string>, t: string, post: seq<string>)
    requires Clean(pre) && CleanToken(t) && Clean(post)
    requires t[0] in ErrorKeys
    requires forall j :: 0 <= j < |post| ==> post[j][0] !in ErrorKeys
    ensures Parsable(pre + [t] + post)
    ensures MetaFlagsResults(pre + [t] + post).1 == TokenError(t)
  {
    var ss := pre + [t] + post;
    CleanSnoc(pre, t);
    CleanConcat(pre + [t], post);
    CleanParsable(ss);
    ResultsWithoutStop(ss);
    LastTokenSnoc(pre, t, ErrorKeys);
    LastTokenConcat(pre + [t], post, ErrorKeys);
  }

  lemma CleanConcat(a: seq<string>, b: seq<string>)
    requires Clean(a) && Clean(b)
    ensures Clean(a + b)
  {
    assert forall j :: 0 <= j < |a + b| ==> (a + b)[j] == if j < |a| then a[j] else b[j - |a|];
  }

  lemma CleanSnoc(a: seq<string>, t: string)
    requires Clean(a) && CleanToken(t)
    ensures Clean(a + [t])
  {
    assert forall j :: 0 <= j < |a| ==> (a + [t])[j] == a[j];
  }

  /** The last token whose key is in keys, or None. */
  function LastToken(ps: seq<string>, keys: iset<char>): (r: Option<string>)
    requires AllWellFormed(ps)
    ensures r.Some? <==> LastOf(ps, keys).Some?
    ensures r.Some? ==> r.value == ps[LastOf(ps, keys).value]
  {
    match LastOf(ps, keys) case None => None case Some(j) => Some(ps[j])
  }

  lemma LastTokenSnoc(ps: seq<string>, t: string, keys: iset<char>)
    requires AllWellFormed(ps) && WellFormedToken(t)
    ensures AllWellFormed(ps + [t])
    ensures LastToken(ps + [t], keys) == if t[0] in keys then Some(t) else LastToken(ps, keys)
  {
    assert forall j :: 0 <= j < |ps| ==> (ps + [t])[j] == ps[j];
    LastOfSnoc(ps, t, keys);
  }

  /** The last token of a key set in a + b is b's, when b has one, and a's otherwise. */
  lemma {:induction false} LastTokenConcat(a: seq<string>, b: seq<string>, keys: iset<char>)
    requires AllWellFormed(a) && AllWellFormed(b)
    ensures AllWellFormed(a + b)
    ensures LastToken(a + b, keys) == if LastToken(b, keys).Some? then LastToken(b, keys) else LastToken(a, keys)
    decreases |b|
  {
    if b == [] {
      assert a + b == a;
    } else {
      var b', p := b[..|b| - 1], b[|b| - 1];
      assert b == b' + [p];
      assert a + b == (a + b') + [p];
      assert forall j :: 0 <= j < |b'| ==> b'[j] == b[j];
      LastTokenConcat(a, b', keys);
      LastTokenSnoc(a + b', p, keys);
      LastTokenSnoc(b', p, keys);
    }
  }

  /**
   * Removing a token that a later token of the same key shadows does not
   * change the last token of any key set.
   */
  lemma LastTokenDrop(pre: seq<string>, t: string, post: seq<string>, j: nat, keys: iset<char>)
    requires AllWellFormed(pre) && WellFormedToken(t) && AllWellFormed(post)
    requires j < |post| && post[j][0] == t[0]
    ensures AllWellFormed(pre + [t] + post) && AllWellFormed(pre + post)
    ensures LastToken(pre + [t] + post, keys) == LastToken(pre + post, keys)
  {
    LastTokenSnoc(pre, t, keys);
    LastTokenConcat(pre + [t], post, keys);
    LastTokenConcat(pre, post, keys);
  }

  /** Removing a shadowed token does not change the flag and text fields. */
  lemma ShadowedMarks(pre: seq<string>, t: string, post: seq<string>, j: nat)
    requires AllWellFormed(pre) && WellFormedToken(t) && AllWellFormed(post)
    requires j < |post| && post[j][0] == t[0]
    ensures AllWellFormed(pre + [t] + post) && AllWellFormed(pre + post)
    ensures var a, b := Accumulated(pre + [t] + post), Accumulated(pre + post);
      a.won == b.won && a.stale == b.stale && a.key == b.key && a.opaqueToken == b.opaqueToken && a.hit == b.hit
  {
    LastTokenDrop(pre, t, post, j, iset{'W', 'Z'});
    LastTokenDrop(pre, t, post, j, iset{'X'});
    LastTokenDrop(pre, t, post, j, iset{'k'});
    LastTokenDrop(pre, t, post, j, iset{'O'});
    LastTokenDrop(pre, t, post, j, iset{'h'});
  }

  /** Removing a shadowed token does not change the numeric fields. */
  lemma ShadowedNumbers(pre: seq<string>, t: string, post: seq<string>, j: nat)
    requires AllWellFormed(pre) && WellFormedToken(t) && AllWellFormed(post)
    requires j < |post| && post[j][0] == t[0]
    ensures AllWellFormed(pre + [t] + post) && AllWellFormed(pre + post)
    ensures var a, b := Accumulated(pre + [t] + post), Accumulated(pre + post);
      a.casToken == b.casToken && a.flags == b.flags && a.lastAccess == b.lastAccess && a.size == b.size && a.ttl == b.ttl
  {
    LastTokenDrop(pre, t, post, j, iset{'c'});
    LastTokenDrop(pre, t, post, j, iset{'f'});
    LastTokenDrop(pre, t, post, j, iset{'l'});
    LastTokenDrop(pre, t, post, j, iset{'s'});
    LastTokenDrop(pre, t, post, j, iset{'t'});
  }

  /**
   * Last occurrence wins: when every token is well formed and none is a bad
   * `f` token, a token followed later by another token of the same key can be
   * removed without changing the result, for every key.
   */
  lemma ShadowedToken(pre: seq<string>, t: string, post: seq<string>, j: nat)
    requires Clean(pre) && CleanToken(t) && Clean(post)
    requires j < |post| && post[j][0] == t[0]
    ensures Parsable(pre + [t] + post) && Parsable(pre + post)
    ensures MetaFlagsResults(pre + [t] + post) == MetaFlagsResults(pre + post)
  {
    var ss, qs := pre + [t] + post, pre + post;
    CleanSnoc(pre, t);
    CleanConcat(pre + [t], post);
    CleanConcat(pre, post);
    CleanParsable(ss);
    CleanParsable(qs);
    ResultsWithoutStop(ss);
    ResultsWithoutStop(qs);
    ShadowedMarks(pre, t, post, j);
    ShadowedNumbers(pre, t, post, j);
    LastTokenDrop(pre, t, post, j, ErrorKeys);
  }

  /** Without an early return, one more token is one more step of the switch. */
  lemma ResultsSnoc(pre: seq<string>, t: string)
    requires Clean(pre) && CleanToken(t)
    ensures Parsable(pre) && Parsable(pre + [t])
    ensures MetaFlagsResults(pre + [t]) == (Next(MetaFlagsResults(pre).0, t), NextErr(MetaFlagsResults(pre).1, t))
  {
    CleanSnoc(pre, t);
    NextIsSnoc(pre, t);
    CleanParsable(pre);
    ResultsWithoutStop(pre);
    CleanParsable(pre + [t]);
    ResultsWithoutStop(pre + [t]);
  }

  /** The field an `l`, `s` or `t` token sets. */
  function Counter(mr: MetaResult, k: char): uint64
    requires k in {'l', 's', 't'}
  {
    match k case 'l' => mr.lastAccess case 's' => mr.size case 't' => mr.ttl
  }

  /** One `l`, `s` or `t` token carrying the canonical decimal of n sets its field to n and clears `err`. */
  lemma CounterStep(a: MetaResult, e: Option<MetaError>, k: char, n: uint64)
    requires k in {'l', 's', 't'}
    ensures WellFormedToken([k] + FormatUint(n)) && !IsBadFlagsToken([k] + FormatUint(n))
    ensures Counter(Next(a, [k] + FormatUint(n)), k) == n
    ensures NextErr(e, [k] + FormatUint(n)) == None
  {
    var t := [k] + FormatUint(n);
    assert t[0] == k && t[1..] == FormatUint(n);
    ParseFormatUint(n, 64);
  }

  /** A last `l`, `s` or `t` token carrying the canonical decimal of n sets its field to n and clears `err`. */
  lemma CanonicalCounterLast(pre: seq<string>, k: char, n: uint64)
    requires Clean(pre) && k in {'l', 's', 't'}
    ensures Parsable(pre + [[k] + FormatUint(n)])
    ensures var (mr, err) := MetaFlagsResults(pre + [[k] + FormatUint(n)]);
      Counter(mr, k) == n && err == None
  {
    var t := [k] + FormatUint(n);
    CleanParsable(pre);
    CounterStep(MetaFlagsResults(pre).0, MetaFlagsResults(pre).1, k, n);
    ResultsSnoc(pre, t);
  }

  /** One `c` token carrying the canonical decimal of i sets the CAS token to i, marks it set and clears `err`. */
  lemma CasStep(a: MetaResult, e: Option<MetaError>, i: int64)
    ensures WellFormedToken("c" + FormatInt(i)) && !IsBadFlagsToken("c" + FormatInt(i))
    ensures Next(a, "c" + FormatInt(i)).casToken == CasToken(i, true)
    ensures NextErr(e, "c" + FormatInt(i)) == None
  {
    var t := "c" + FormatInt(i);
    assert t[0] == 'c' && t[1..] == FormatInt(i);
    ParseFormatInt(i);
  }

  /** A last `c` token carrying the canonical decimal of i sets the CAS token to i, marks it set and clears `err`. */
  lemma CanonicalCasLast(pre: seq<string>, i: int64)
    requires Clean(pre)
    ensures Parsable(pre + ["c" + FormatInt(i)])
    ensures var (mr, err) := MetaFlagsResults(pre + ["c" + FormatInt(i)]);
      mr.casToken == CasToken(i, true) && err == None
  {
    var t := "c" + FormatInt(i);
    CleanParsable(pre);
    CasStep(MetaFlagsResults(pre).0, MetaFlagsResults(pre).1, i);
    ResultsSnoc(pre, t);
  }

  /** One `f` token carrying the canonical decimal of n sets flags to n and leaves `err` as it was. */
  lemma FlagsStep(a: MetaResult, e: Option<MetaError>, n: uint32)
    ensures WellFormedToken("f" + FormatUint(n)) && !IsBadFlagsToken("f" + FormatUint(n))
    ensures Next(a, "f" + FormatUint(n)).flags == n
    ensures NextErr(e, "f" + FormatUint(n)) == e
  {
    var t := "f" + FormatUint(n);
    assert t[0] == 'f' && t[1..] == FormatUint(n);
    ParseFormatUint(n, 32);
  }

  /** A last `f` token carrying the canonical decimal of n sets flags to n and leaves `err` as it was. */
  lemma CanonicalFlagsLast(pre: seq<string>, n: uint32)
    requires Clean(pre)
    ensures Parsable(pre) && Parsable(pre + ["f" + FormatUint(n)])
    ensures var (mr, err) := MetaFlagsResults(pre + ["f" + FormatUint(n)]);
      mr.flags == n && err == MetaFlagsResults(pre).1
  {
    var t := "f" + FormatUint(n);
    CleanParsable(pre);
    FlagsStep(MetaFlagsResults(pre).0, MetaFlagsResults(pre).1, n);
    ResultsSnoc(pre, t);
  }

  // ---------------------------------------------------------------------
  // Examples

  /** No token: the zero record and no error. */
  lemma ResultsEmpty()
    ensures Parsable([]) && MetaFlagsResults([]) == (ZeroResult, None)
  {
    AccumulatedEmpty();
    ResultsWithoutStop([]);
  }

  // The examples below are stated on Run from the zero record, which is what
  // ObtainMetaFlagsResults returns.

  /** An unknown key is an error, but the `t` token after it overwrites the error. */
  lemma UnknownKeyOverwrittenExample()
    ensures Run(ZeroResult, None, ["Q", "t30"]) == (ZeroResult.(ttl := 30), None)
  {
    var t := "t30";
    assert t[1..] == FormatUint(30);
    ParseFormatUint(30, 64);
  }

  /** An unknown key after a `t` token leaves its error in place. */
  lemma UnknownKeyLastExample()
    ensures Run(ZeroResult, None, ["t30", "Q"]) == (ZeroResult.(ttl := 30), Some(InvalidFlag('Q')))
  {
    var t := "t30";
    assert t[1..] == FormatUint(30);
    ParseFormatUint(30, 64);
  }

  /** A bad `c` argument is reported after the fields before it have been set; the CAS token is still marked set. */
  lemma CasErrorExample()
    ensures Run(ZeroResult, None, ["W", "h1", "f7", "cXYZ"]) ==
      (ZeroResult.(won := true, hit := true, flags := 7, casToken := CasToken(0, true)),
       Some(NumErr(NumError(FnParseInt, "XYZ", ErrSyntax))))
  {
    var f, c := "f7", "cXYZ";
    assert f[1..] == FormatUint(7);
    ParseFormatUint(7, 32);
    assert c[1..] == "XYZ" && Unsigned("XYZ") == "XYZ";
  }

  /** Only the first char of a token is its key; a non-numeric `t` argument is a syntax error. */
  lemma KeyCharExample()
    ensures Run(ZeroResult, None, ["Wh1", "ttoken"]) ==
      (ZeroResult.(won := true), Some(NumErr(NumError(FnParseUint, "token", ErrSyntax))))
  {
    var t := "ttoken";
    assert t[1..] == "token";
  }

  /** A bad `f` argument returns at once: the `t` token after it is never read. */
  lemma BadFlagsExample()
    ensures Run(ZeroResult, None, ["k1", "fX", "t5"]) ==
      (ZeroResult.(key := "1"), Some(NumErr(NumError(FnParseUint, "X", ErrSyntax))))
  {
    var k, f := "k1", "fX";
    assert k[1..] == "1" && f[1..] == "X";
  }

  // ---------------------------------------------------------------------
  // The parser

  /** obtainMetaFlagsResults: decode the flag tokens of one response line. */
  method ObtainMetaFlagsResults(ss: seq<string>) returns (mr: MetaResult, err: Option<MetaError>)
    requires Parsable(ss)
    ensures (mr, err) == Run(ZeroResult, None, ss)
    ensures (mr, err) == MetaFlagsResults(ss)
  {
    ParserMeetsSpec(ss);
    mr, err := ZeroResult, None;
    var i := 0;
    while i < |ss|
      invariant i <= |ss| && Parsable(ss[i..])
      invariant Run(mr, err, ss[i..]) == Run(ZeroResult, None, ss)
    {
      var f := ss[i];
      var k, v := f[0], f[1..];
      assert ss[i..][1..] == ss[i + 1..];
      match k {
        case 'W' => mr := mr.(won := true);
        case 'Z' => mr := mr.(won := false);
        case 'X' => mr := mr.(stale := true);
        case 'k' => mr := mr.(key := v);
        case 'O' => mr := mr.(opaqueToken := v);
        case 'c' =>
          var r := ParseInt(v);
          mr, err := mr.(casToken := mr.casToken.(value := r.value)), Lift(r.err);
          mr := mr.(casToken := mr.casToken.(setted := true));
        case 'f' =>
          var r := ParseUint(v, 32);
          if r.err.Some? {
            return mr, Some(NumErr(r.err.value));
          }
          mr := mr.(flags := r.value);
        case 'h' => mr := mr.(hit := v[0] == '1');
        case 'l' =>
          var r := ParseUint(v, 64);
          mr, err := mr.(lastAccess := r.value), Lift(r.err);
        case 's' =>
          var r := ParseUint(v, 64);
          mr, err := mr.(size := r.value), Lift(r.err);
        case 't' =>
          var r := ParseUint(v, 64);
          mr, err := mr.(ttl := r.value), Lift(r.err);
        case _ => err := Some(InvalidFlag(k));
      }
      i := i + 1;
    }
  }
}
