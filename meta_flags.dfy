/**
 * Request side of the meta protocol flag codec: flag directives, the closed
 * set of constructors that create them, and the builder that serializes a
 * list of directives into the space-joined flag string of a meta command.
 */
module MetaFlags {
  import opened Wrappers
  import opened Strconv
  import opened Strings

  /** One request flag: a key letter k and its input text (empty when the flag takes none). */
  datatype MetaFlag = MetaFlag(k: string, i: string) {
    /** metaFlag.build: appends this flag's token to the tokens built so far. */
    function Build(of: seq<string>): (r: seq<string>)
      ensures |r| == |of| + 1 && r[..|of|] == of && r[|of|] == k + i
    {
      of + [k + i]
    }
  }

  /** The token of every directive, in order. */
  function Tokens(fs: seq<MetaFlag>): (ts: seq<string>)
    ensures |ts| == |fs|
    ensures forall j :: 0 <= j < |fs| ==> ts[j] == fs[j].k + fs[j].i
    decreases |fs|
  {
    if fs == [] then [] else fs[|fs| - 1].Build(Tokens(fs[..|fs| - 1]))
  }

  /** buildMetaFlags: every directive's token, in input order, joined by single spaces. */
  method BuildMetaFlags(fs: seq<MetaFlag>) returns (s: string)
    ensures s == Join(Tokens(fs), " ")
    ensures fs == [] ==> s == ""
  {
    var ss: seq<string> := [];
    for j := 0 to |fs|
      invariant ss == Tokens(fs[..j])
    {
      assert fs[..j + 1][..j] == fs[..j];
      ss := fs[j].Build(ss);
    }
    assert fs[..|fs|] == fs;
    s := Join(ss, " ");
  }

  // ---------------------------------------------------------------------
  // Constructors without an argument: the token is the key letter alone.

  /** b: interpret the key as base64-encoded binary. */
  function WithBinary(): (f: MetaFlag)
    ensures f.k + f.i == "b"
  { MetaFlag("b", "") }

  /** c: return the item's CAS token. */
  function WithCAS(): (f: MetaFlag)
    ensures f.k + f.i == "c"
  { MetaFlag("c", "") }

  /** f: return the client flags. */
  function WithFlag(): (f: MetaFlag)
    ensures f.k + f.i == "f"
  { MetaFlag("f", "") }

  /** h: return whether the item was hit before, as 0 or 1. */
  function WithHit(): (f: MetaFlag)
    ensures f.k + f.i == "h"
  { MetaFlag("h", "") }

  /** l: return the seconds since the item was last accessed. */
  function WithLastAccess(): (f: MetaFlag)
    ensures f.k + f.i == "l"
  { MetaFlag("l", "") }

  /** q: noreply semantics for return codes. */
  function WithQuiet(): (f: MetaFlag)
    ensures f.k + f.i == "q"
  { MetaFlag("q", "") }

  /** s: return the item size. */
  function WithSize(): (f: MetaFlag)
    ensures f.k + f.i == "s"
  { MetaFlag("s", "") }

  /** t: return the item's remaining TTL in seconds. */
  function WithTTL(): (f: MetaFlag)
    ensures f.k + f.i == "t"
  { MetaFlag("t", "") }

  /** u: do not bump the item in the LRU. */
  function WithNoBump(): (f: MetaFlag)
    ensures f.k + f.i == "u"
  { MetaFlag("u", "") }

  /** v: return the item value in the data block. */
  function WithValue(): (f: MetaFlag)
    ensures f.k + f.i == "v"
  { MetaFlag("v", "") }

  /** I: invalidate (mark stale) instead of deleting or storing outright. */
  function WithSetInvalid(): (f: MetaFlag)
    ensures f.k + f.i == "I"
  { MetaFlag("I", "") }

  // ---------------------------------------------------------------------
  // Constructors with an opaque text argument: the letter, then the text unchanged.

  /** O(token): opaque value copied back with the response. */
  function WithOpaque(token: string): (f: MetaFlag)
    ensures f.k + f.i == "O" + token
  { MetaFlag("O", token) }

  /** M(token): mode switch (add, replace, append, prepend, ...). */
  function WithMode(token: string): (f: MetaFlag)
    ensures f.k + f.i == "M" + token
  { MetaFlag("M", token) }

  // ---------------------------------------------------------------------
  // Constructors with a numeric argument: the letter, then canonical decimal
  // text that parses back to the argument.

  /** N(token): vivify on miss, with token as the TTL. */
  function WithVivify(token: uint64): (f: MetaFlag)
    ensures f.k == "N" && IsCanonicalUint(f.i) && ParseUint(f.i, 64) == Parsed(token, None)
  {
    ParseFormatUint(token, 64);
    MetaFlag("N", FormatUint(token))
  }

  /** R(token): win for recache when token is less than the remaining TTL. */
  function WithRecache(token: uint64): (f: MetaFlag)
    ensures f.k == "R" && IsCanonicalUint(f.i) && ParseUint(f.i, 64) == Parsed(token, None)
  {
    ParseFormatUint(token, 64);
    MetaFlag("R", FormatUint(token))
  }

  /** T(token): update the remaining TTL. */
  function WithSetTTL(token: uint64): (f: MetaFlag)
    ensures f.k == "T" && IsCanonicalUint(f.i) && ParseUint(f.i, 64) == Parsed(token, None)
  {
    ParseFormatUint(token, 64);
    MetaFlag("T", FormatUint(token))
  }

  /** C(token): compare this CAS value when storing (signed 64-bit). */
  function WithCompareCAS(token: int64): (f: MetaFlag)
    ensures f.k == "C" && IsCanonicalInt(f.i) && (IsNegative(f.i) <==> token < 0)
    ensures ParseInt(f.i) == Parsed(token, None)
  {
    ParseFormatInt(token);
    MetaFlag("C", FormatInt(token))
  }

  /** F(token): set the client flags (32-bit unsigned). */
  function WithSetFlag(token: uint32): (f: MetaFlag)
    ensures f.k == "F" && IsCanonicalUint(f.i) && ParseUint(f.i, 32) == Parsed(token, None)
  {
    ParseFormatUint(token, 32);
    MetaFlag("F", FormatUint(token))
  }

  /** J(token): initial value when auto-created after a miss. */
  function WithInitialValue(token: uint64): (f: MetaFlag)
    ensures f.k == "J" && IsCanonicalUint(f.i) && ParseUint(f.i, 64) == Parsed(token, None)
  {
    ParseFormatUint(token, 64);
    MetaFlag("J", FormatUint(token))
  }

  /** D(token): delta to apply (unsigned 64-bit). */
  function WithDelta(token: uint64): (f: MetaFlag)
    ensures f.k == "D" && IsCanonicalUint(f.i) && ParseUint(f.i, 64) == Parsed(token, None)
  {
    ParseFormatUint(token, 64);
    MetaFlag("D", FormatUint(token))
  }

  // ---------------------------------------------------------------------
  // Properties of the built string

  /** Splitting the built string on spaces gives back each directive's token, in order. */
  lemma BuildRoundTrip(fs: seq<MetaFlag>)
    requires |fs| > 0
    requires forall j :: 0 <= j < |fs| ==> ' ' !in fs[j].k + fs[j].i
    ensures Split(Join(Tokens(fs), " "), ' ') == Tokens(fs)
  {
    SplitJoin(Tokens(fs), ' ');
  }

  /** The built string begins with the first token and ends with the last one. */
  lemma BuildEnds(fs: seq<MetaFlag>)
    requires |fs| > 0
    ensures var s, first, last := Join(Tokens(fs), " "), fs[0].k + fs[0].i, fs[|fs| - 1].k + fs[|fs| - 1].i;
      first <= s && |last| <= |s| && s[|s| - |last|..] == last
  {
    JoinEnds(Tokens(fs), " ");
  }

  /** Numeric arguments never contain a space, so their tokens survive the round trip. */
  lemma CanonicalHasNoSpace(s: string)
    requires IsCanonicalUint(s) || IsCanonicalInt(s)
    ensures ' ' !in s
  {
  }

  /**
   * A directive whose token cannot hold a space: a one-letter key other than
   * a space, with no argument or a canonical decimal argument. Every
   * constructor except WithOpaque and WithMode makes one.
   */
  predicate SpaceFree(f: MetaFlag)
  {
    |f.k| == 1 && f.k != " " && (f.i == "" || IsCanonicalUint(f.i) || IsCanonicalInt(f.i))
  }

  /** The constructors without a text argument make space-free directives. */
  lemma ConstructorsSpaceFree(n: uint64, m: uint32, c: int64)
    ensures SpaceFree(WithBinary()) && SpaceFree(WithCAS()) && SpaceFree(WithFlag())
    ensures SpaceFree(WithHit()) && SpaceFree(WithLastAccess()) && SpaceFree(WithQuiet())
    ensures SpaceFree(WithSize()) && SpaceFree(WithTTL()) && SpaceFree(WithNoBump())
    ensures SpaceFree(WithValue()) && SpaceFree(WithSetInvalid())
    ensures SpaceFree(WithVivify(n)) && SpaceFree(WithRecache(n)) && SpaceFree(WithSetTTL(n))
    ensures SpaceFree(WithInitialValue(n)) && SpaceFree(WithDelta(n))
    ensures SpaceFree(WithSetFlag(m)) && SpaceFree(WithCompareCAS(c))
  {
  }

  /**
   * A built string of space-free directives splits back into their tokens,
   * in order (an opaque or mode text holding a space would break this).
   */
  lemma SpaceFreeRoundTrip(fs: seq<MetaFlag>)
    requires |fs| > 0 && forall j :: 0 <= j < |fs| ==> SpaceFree(fs[j])
    ensures Split(Join(Tokens(fs), " "), ' ') == Tokens(fs)
  {
    forall j | 0 <= j < |fs|
      ensures ' ' !in fs[j].k + fs[j].i
    {
      SpaceFreeToken(fs[j]);
    }
    BuildRoundTrip(fs);
  }

  /** The token of a space-free directive holds no space. */
  lemma SpaceFreeToken(f: MetaFlag)
    requires SpaceFree(f)
    ensures ' ' !in f.k + f.i
  {
    if f.i != "" {
      CanonicalHasNoSpace(f.i);
    }
    assert f.k + f.i == [f.k[0]] + f.i;
  }

  /** Order is kept: CAS then TTL gives "c t"; TTL then CAS gives "t c". */
  lemma OrderExample()
    ensures Join(Tokens([WithCAS(), WithTTL()]), " ") == "c t"
    ensures Join(Tokens([WithTTL(), WithCAS()]), " ") == "t c"
  {
  }

  /** Argument formatting: opaque text is copied, numbers are written in decimal. */
  lemma ConstructorExamples()
    ensures Join(Tokens([WithOpaque("abc123")]), " ") == "Oabc123"
    ensures Join(Tokens([WithSetFlag(42)]), " ") == "F42"
    ensures Join(Tokens([WithCompareCAS(-7)]), " ") == "C-7"
  {
  }
}
