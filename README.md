# Meta protocol flag codec

A Dafny model of the flag codec of a memcache client's meta protocol
(`meta_flags.go`). The codec has two halves:

- **Request side.** A meta command carries flags after its key. A *flag
  directive* is a key letter plus an optional argument. The closed set of
  `with*` constructors creates directives. `buildMetaFlags` turns a list
  of directives into one string: each directive's token, in order, joined
  by single spaces. Numeric arguments are written in canonical base-10
  text.
- **Response side.** `obtainMetaFlagsResults` reads the flag tokens of one
  response line into a `MetaResult` record. The first char of each token is
  its key and the rest is its argument:
  - `W`/`Z` set whether the client won;
  - `X` marks the item stale;
  - `k` sets the key and `O` the opaque token;
  - `c` sets the CAS token;
  - `f` sets the client flags;
  - `h` sets whether the item was hit;
  - `l`, `s` and `t` set last access, size and TTL.

Modules:

- `Wrappers`: `Option`.
- `Strconv`: the parts of Go's `strconv` the codec calls, in base 10:
  - `FormatUint` and `FormatInt`;
  - `ParseUint` for 32 and 64 bits, and `ParseInt` for 64 bits.

  The parsers follow Go's scan order. The first non-digit gives a syntax
  error with value 0. A prefix that already exceeds the maximum gives a
  range error with the maximum. `ParseInt` forwards to `ParseUint` after an
  optional sign and clamps to the `int64` bounds. Every error records the
  function and the input text.
- `Strings`: `strings.Join`, plus a `Split` used only to state what
  joining preserves.
- `MetaFlags`: the `metaFlag` directive, its `build`, every constructor,
  and `buildMetaFlags`.
- `MetaResults`: `MetaResult` and the parser. The record (`MetaResult`,
  with its `CasToken` of a value and a `setted` marker) has one field per
  response flag the switch at meta_flags.go:25-51 assigns. `ZeroResult` is
  its zero value, which the named result starts from (meta_flags.go:21).
  These are datatypes and a constant, so they have no row below;
  `AccumulatedEmpty` and `ResultsEmpty` state the zero start.

The parser is described in three ways:

1. `ObtainMetaFlagsResults` is a method with the source's loop and switch.
2. `Run` reads the tokens one at a time, with the early return on a bad
   `f` argument. The method's `ensures` gives `Run` from the zero record,
   and also the declarative result below.
3. `MetaFlagsResults` is the declarative meaning, with no loop:
   - each field holds what the last token of its key left there;
   - `err` is the error of the last `c`, `l`, `s`, `t` or unknown-key token;
   - or, when a bad `f` argument stops the parse, the record is that of the
     tokens before it and the error is that token's.

`ParserMeetsSpec` proves that `Run` and `MetaFlagsResults` agree on every
`Parsable` token list, that is, every list whose tokens before the first bad
`f` argument are well formed. The general parser properties are proved about
`MetaFlagsResults`; the five concrete examples (`UnknownKeyOverwrittenExample`
to `BadFlagsExample`) are stated about `Run`.

The model follows the code where the code's behaviour is easy to misread:

- Only a bad `f` argument ends the parse (meta_flags.go:38-43).
  - The `c`, `l`, `s` and `t` parse errors and the unknown-key error are
    stored in `err`, and reading goes on.
  - A later token of one of those keys overwrites `err`, and can clear it
    (`UnknownKeyOverwrittenExample`, `LaterErrorWins`).
  - So the parser stops only at a bad `f` argument, not at the first error.
- The `f` case parses into a shadowing `err`. A good `f` token therefore
  leaves an earlier error in place (`CanonicalFlagsLast`).
- `casToken.setted` is set for every `c` token, even when its number does
  not parse (`CasSetIffSeen`, `CasErrorExample`).
- Only the token's first char is its key. The argument of `"ttoken"` is
  `"token"` (`KeyCharExample`).
- The record is returned together with the error, not dropped.

## Model

| member | source | states |
|---|---|---|
| `Strconv.FormatUint` | meta_flags.go:123-136 | FormatUint text is canonical decimal (digits only, no leading zero) and denotes exactly the argument |
| `Strconv.FormatInt` | meta_flags.go:138-141 | FormatInt text is canonical signed decimal, negative iff the argument is, with magnitude equal to the argument's absolute value |
| `Strconv.ParseUint` | meta_flags.go:39 | ParseUint's value always fits the bit size (0 up to 2^bitSize-1) |
| `Strconv.ParseInt` | meta_flags.go:36 | ParseInt's value always lies within int64 (MinInt64 up to MaxInt64) |
| `Strconv.ParseUintSpec` | meta_flags.go:47-51 | ParseUint succeeds iff the text is non-empty decimal digits whose value fits the bit size, and then returns that value. On error it names ParseUint and the input text. A range error gives the maximum and happens iff the leading digits already exceed it. A syntax error gives 0. |
| `Strconv.ParseIntSpec` | meta_flags.go:36 | ParseInt succeeds iff, after one optional sign, the text is non-empty digits within the int64 bound for that sign, and then returns the signed value. On error it names ParseInt and the input. A syntax error gives 0. A range error gives MinInt64 or MaxInt64 by sign. A range error happens iff the leading digits after the sign already exceed 64 bits, or the whole unsigned text is digits whose value passes the int64 bound for its sign; so "9223372036854775808x" is a syntax error with 0. |
| `Strconv.ScanDigits` | meta_flags.go:39 | Go's digit loop inside ParseUint, base 10: reads left to right from a prefix known to denote acc; stops with ErrSyntax and 0 at the first non-digit, with ErrRange and max as soon as the prefix exceeds max, whichever comes first, and otherwise returns the value |
| `Strconv.ScanDigitsSpec` | meta_flags.go:39 | what the digit loop returns: success iff every char is a digit and the value fits; then the value; 0 on a syntax error; max on a range error, which happens iff the leading digits already exceed max |
| `Strconv.CanonicalUintUnique` | meta_flags.go:125 | canonical unsigned text is exactly FormatUint of the number it denotes (one text per number) |
| `Strconv.CanonicalIntUnique` | meta_flags.go:140 | canonical signed text is exactly FormatInt of the number it denotes |
| `Strconv.ParseFormatUint` | meta_flags.go:145 | ParseUint(FormatUint(n)) gives n with no error, for any n within the bit size |
| `Strconv.ParseFormatInt` | meta_flags.go:140 | ParseInt(FormatInt(i)) gives i with no error, for any int64 i |
| `Strings.Join` | meta_flags.go:18 | strings.Join: no elements give ""; one element gives that element; otherwise the length is the elements' total length plus (n-1) separators (the content is stated by JoinSnoc) |
| `Strings.JoinSnoc` | meta_flags.go:18 | joining one more element gives the earlier join, then sep, then that element, whatever chars the elements hold (sep included); with Join of one element being that element, this fixes the content and order of every join |
| `Strings.JoinEnds` | meta_flags.go:18 | the joined string starts with the first element and ends with the last |
| `Strings.SplitJoin` | meta_flags.go:18 | for a non-empty list, splitting on sep undoes joining with sep, when no element contains sep |
| `MetaFlags.MetaFlag.Build` | meta_flags.go:64-66 | build keeps the tokens built so far and appends exactly one token, key followed by input |
| `MetaFlags.Tokens` | meta_flags.go:14-17 | the token list has one token per directive, in input order, each the directive's key followed by its input |
| `MetaFlags.BuildMetaFlags` | meta_flags.go:13-19 | the built string is the directives' tokens in input order, joined by single spaces; no directives give the empty string |
| `MetaFlags.BuildRoundTrip` | meta_flags.go:13-19 | for a non-empty list of directives, splitting the built string on spaces gives back every directive's token in order, when no token contains a space |
| `MetaFlags.BuildEnds` | meta_flags.go:13-19 | the built string begins with the first directive's token and ends with the last |
| `MetaFlags.CanonicalHasNoSpace` | meta_flags.go:123-146 | numeric arguments never contain a space, so numeric tokens survive the split round trip |
| `MetaFlags.ConstructorsSpaceFree` | meta_flags.go:68-166 | every constructor except withOpaque and withMode makes a one-letter key with no argument or a canonical decimal argument |
| `MetaFlags.SpaceFreeToken` | meta_flags.go:64-66 | the token of such a directive holds no space |
| `MetaFlags.SpaceFreeRoundTrip` | meta_flags.go:13-19 | for a non-empty list of such directives, the built string splits on spaces back into their tokens, in order |
| `MetaFlags.OrderExample` | meta_flags.go:13-19 | order is kept: CAS then TTL builds "c t", TTL then CAS builds "t c" |
| `MetaFlags.ConstructorExamples` | meta_flags.go:93-146 | an opaque argument is copied unchanged ("Oabc123"); numbers are written in decimal ("F42", "C-7") |
| `MetaFlags.WithBinary` | meta_flags.go:68-71 | the token is "b" |
| `MetaFlags.WithCAS` | meta_flags.go:73-76 | the token is "c" |
| `MetaFlags.WithFlag` | meta_flags.go:78-81 | the token is "f" |
| `MetaFlags.WithHit` | meta_flags.go:83-86 | the token is "h" |
| `MetaFlags.WithLastAccess` | meta_flags.go:88-91 | the token is "l" |
| `MetaFlags.WithOpaque` | meta_flags.go:93-96 | the token is "O" followed by the opaque text unchanged |
| `MetaFlags.WithQuiet` | meta_flags.go:98-101 | the token is "q" |
| `MetaFlags.WithSize` | meta_flags.go:103-106 | the token is "s" |
| `MetaFlags.WithTTL` | meta_flags.go:108-111 | the token is "t" |
| `MetaFlags.WithNoBump` | meta_flags.go:113-116 | the token is "u" |
| `MetaFlags.WithValue` | meta_flags.go:118-121 | the token is "v" |
| `MetaFlags.WithVivify` | meta_flags.go:123-126 | key "N"; the argument is canonical decimal that parses back (64-bit) to the TTL given |
| `MetaFlags.WithRecache` | meta_flags.go:128-131 | key "R"; the argument is canonical decimal that parses back (64-bit) to the value given |
| `MetaFlags.WithSetTTL` | meta_flags.go:133-136 | key "T"; the argument is canonical decimal that parses back (64-bit) to the TTL given |
| `MetaFlags.WithCompareCAS` | meta_flags.go:138-141 | key "C"; the argument is canonical signed decimal, negative iff the CAS value is, and parses back to it |
| `MetaFlags.WithSetFlag` | meta_flags.go:143-146 | key "F"; the argument is canonical decimal that parses back as a 32-bit value to the flags given |
| `MetaFlags.WithSetInvalid` | meta_flags.go:148-151 | the token is "I" |
| `MetaFlags.WithMode` | meta_flags.go:153-156 | the token is "M" followed by the mode text unchanged |
| `MetaFlags.WithInitialValue` | meta_flags.go:158-161 | key "J"; the argument is canonical decimal that parses back (64-bit) to the value given |
| `MetaFlags.WithDelta` | meta_flags.go:163-166 | key "D"; the argument is canonical decimal that parses back (64-bit) to the delta given |
| `MetaResults.Parsable` | meta_flags.go:22-45 | the parser's precondition, standing for the panics at lines 23 and 45: every token read before the first early return is non-empty, and an `h` token read there has an argument char; tokens after a bad `f` token are unconstrained |
| `MetaResults.FirstStop` | meta_flags.go:38-43 | the index of the first `f` token whose argument is not a 32-bit unsigned decimal, or the list length when there is none |
| `MetaResults.ParsableReached` | meta_flags.go:22-23 | the parser's precondition says exactly that every token before the first early return is non-empty, and an `h` token also has an argument char |
| `MetaResults.LastOf` | meta_flags.go:22-55 | the index of the last token whose key is in the set; no later token has such a key; None iff no token has one |
| `MetaResults.Accumulated` | meta_flags.go:25-51 | the record after reading tokens with no early return: each field is what the last token of its key left (W/Z for won, X for stale, k, O, c, f, h, l, s, t), or its zero value when no token has that key |
| `MetaResults.LastError` | meta_flags.go:35-53 | `err` after reading tokens with no early return: the error of the last c, l, s, t or unknown-key token (None when its parse succeeded or there is none) |
| `MetaResults.MetaFlagsResults` | meta_flags.go:21-57 | the parser's declarative meaning: at the first bad `f` token, the record of the tokens before it and that token's ParseUint error; otherwise the record of all tokens and the last assigned error |
| `MetaResults.Next` | meta_flags.go:23-54 | one pass of the switch on the record: the field the token's key names is updated from the argument (W sets won, Z clears it, X sets stale, k/O copy the text, c sets the CAS value and marks it set, f/l/s/t parse their number, h tests the first argument char); every other field is kept |
| `MetaResults.NextErr` | meta_flags.go:35-53 | one pass of the switch on `err`: a c, l, s, t or unknown-key token replaces it with its own result; W, Z, X, k, O, f and h leave it |
| `MetaResults.Run` | meta_flags.go:22-56 | the loop: read the tokens left to right from a record and error, returning at once with that token's error on a bad `f` token, and returning the record and error when the tokens run out |
| `MetaResults.NextIsSnoc` | meta_flags.go:24-54 | one more read token moves the declarative record and error to those of the longer list, exactly as the switch updates them |
| `MetaResults.AccumulatedSnocMarks` | meta_flags.go:25-34 | one more token changes won, stale, key and opaque only when its key names them: W sets won, Z clears it, X marks stale, k and O replace the text; h sets hit from the first argument char (meta_flags.go:44-45) |
| `MetaResults.AccumulatedSnocTokens` | meta_flags.go:35-43 | one more `c` token sets the CAS value from ParseInt and marks it set; one more `f` token sets flags from the 32-bit ParseUint; other fields are unchanged |
| `MetaResults.AccumulatedSnocCounters` | meta_flags.go:46-51 | one more `l`, `s` or `t` token sets last access, size or TTL from the 64-bit ParseUint |
| `MetaResults.LastErrorSnoc` | meta_flags.go:35-53 | one more token replaces `err` exactly when its key is c, l, s, t or unknown, with that token's own error (possibly none) |
| `MetaResults.RunIsMetaFlagsResults` | meta_flags.go:21-57 | reading the rest of the tokens one at a time from the declarative record of a prefix gives the declarative result of the whole list |
| `MetaResults.ResultsWithoutStop` | meta_flags.go:22-56 | with no bad `f` token, every token is read and the result is the record of all of them with the last assigned error |
| `MetaResults.ResultsAtStop` | meta_flags.go:38-43 | at the first bad `f` token, the result is the record of the tokens before it and that token's error |
| `MetaResults.AccumulatedEmpty` | meta_flags.go:21 | before any token the record is the zero record and there is no error |
| `MetaResults.ParserMeetsSpec` | meta_flags.go:21-57 | the loop's meaning (Run from the zero record) equals the declarative meaning, for every token list the parser can read |
| `MetaResults.ObtainMetaFlagsResults` | meta_flags.go:21-57 | the method returns exactly Run started from the zero record and no error, and so the declarative result MetaFlagsResults |
| `MetaResults.StopIgnoresRest` | meta_flags.go:38-43 | a bad `f` token returns at once. Later tokens have no effect. The record, flags included, is that of the tokens before it. The error is that token's ParseUint error. |
| `MetaResults.CasSetIffSeen` | meta_flags.go:35-37 | casToken.setted holds iff a `c` token was read before any early return, whether or not its number parsed |
| `MetaResults.LaterErrorWins` | meta_flags.go:35-53 | without an early return, `err` is the error of the last c, l, s, t or unknown-key token; earlier errors are overwritten |
| `MetaResults.LastTokenConcat` | meta_flags.go:22-55 | in a + b, the last token of a key set is b's when b has one, and a's otherwise |
| `MetaResults.LastTokenDrop` | meta_flags.go:22-55 | removing a token that a later token of the same key follows does not change the last token of any key set |
| `MetaResults.ShadowedMarks` | meta_flags.go:25-34 | removing a shadowed token leaves won, stale, key, opaque and hit unchanged |
| `MetaResults.ShadowedNumbers` | meta_flags.go:35-51 | removing a shadowed token leaves CAS, flags, last access, size and TTL unchanged |
| `MetaResults.ShadowedToken` | meta_flags.go:22-55 | last occurrence wins: when every token in the list is well formed and none is a bad `f` token, removing any token that a later token of the same key follows changes neither the record nor the error |
| `MetaResults.ResultsSnoc` | meta_flags.go:22-55 | without an early return, one more token is one more step of the switch on the result of the tokens before it |
| `MetaResults.CounterStep` | meta_flags.go:46-51 | an `l`, `s` or `t` token with the canonical decimal of n sets its own field to n and clears `err` |
| `MetaResults.CanonicalCounterLast` | meta_flags.go:46-51 | a last `l`, `s` or `t` token with the canonical decimal of n leaves its field at n and no error |
| `MetaResults.CasStep` | meta_flags.go:35-37 | a `c` token with the canonical decimal of i sets the CAS token to (i, set) and clears `err` |
| `MetaResults.CanonicalCasLast` | meta_flags.go:35-37 | a last `c` token with the canonical decimal of i leaves the CAS token at (i, set) and no error |
| `MetaResults.FlagsStep` | meta_flags.go:38-43 | an `f` token with the canonical decimal of a 32-bit n sets flags to n and does not touch `err` |
| `MetaResults.CanonicalFlagsLast` | meta_flags.go:38-43 | a last `f` token with the canonical decimal of n leaves flags at n and leaves `err` as the tokens before it left it |
| `MetaResults.ResultsEmpty` | meta_flags.go:21 | no token gives the zero record and no error |
| `MetaResults.UnknownKeyOverwrittenExample` | meta_flags.go:50-53 | ["Q", "t30"] gives TTL 30 and no error: the `t` token overwrites the unknown-key error |
| `MetaResults.UnknownKeyLastExample` | meta_flags.go:52-53 | ["t30", "Q"] gives TTL 30 and the unknown-flag error for 'Q' |
| `MetaResults.CasErrorExample` | meta_flags.go:35-37 | ["W", "h1", "f7", "cXYZ"] sets won, hit and flags 7, marks the CAS token set with value 0, and returns ParseInt's syntax error for "XYZ" |
| `MetaResults.KeyCharExample` | meta_flags.go:23 | ["Wh1", "ttoken"] sets won only (the rest of "Wh1" is ignored) and returns ParseUint's syntax error for "token" |
| `MetaResults.BadFlagsExample` | meta_flags.go:38-43 | ["k1", "fX", "t5"] returns key "1" and ParseUint's syntax error for "X"; the `t` token is never read |

## Left out

- The panics on an empty token and on an `h` token with no argument
  (meta_flags.go:23, 45) are not modelled. Instead, the parser's
  precondition `Parsable` asks that every token actually reached avoids
  them. Tokens after an early return are unconstrained.
- The `metaFlager` interface is modelled as the single `MetaFlag`
  datatype, its only implementation in the file.
- The text of error messages is not modelled. That covers the
  `fmt.Errorf` message for an unknown flag and `NumError.Error()`. Errors
  are values: `NumErr(NumError(fn, num, kind))` or `InvalidFlag(key)`.
- Only the parts of `strconv` the codec calls are modelled: base 10, bit
  sizes 32 and 64 for `ParseUint`, and 64 for `ParseInt`. Other bases,
  underscores and the `0x` prefixes are not modelled because base 10 never
  accepts them.
- Strings are `seq<char>` with one char per byte of the Go string. No
  Unicode handling is needed, since every comparison is on single bytes.
- The `MetaResult` type is declared in another file of the client. That
  file is not part of this model. The record here has the ten fields the
  parser assigns.
- Splitting the response line into tokens and building the command line
  around the flag string happen in the transport code, outside this file.
  They are not modelled.
- Concurrency does not arise: both functions are pure apart from the
  parser's local accumulator.
