/**
 * `replaceTokens` of src/replacement.ts: the options are merged over the
 * defaults, the input is split on the token separator, every section whose
 * lookup in the token object is truthy is replaced by the transformer's text,
 * and a loop reassembles the output, putting a ':' back between two
 * neighbouring sections that were both left unchanged.
 */
module Replacement {
  import opened Wrappers
  import opened JsText

  /** `ReplacementOptions<T>`: both fields may be left out. */
  datatype ReplacementOptions<!T> = ReplacementOptions(
    tokenSeparator: Option<string>,
    transformer: Option<T -> string>)

  /** The merged options object: every field has a value. */
  datatype Settings<!T> = Settings(tokenSeparator: string, transformer: T -> string)

  /**
   * What the JavaScript runtime decides about a token value: whether it is
   * truthy, and what its own `toString()` gives.
   */
  datatype Runtime<!T> = Runtime(truthy: T -> bool, toString: T -> string)

  /** The default token separator. */
  const DefaultSeparator: string := ":"

  /** The text the reassembly loop puts between two unchanged sections; it is fixed, whatever the separator. */
  const ReinsertedText: string := ":"

  /**
   * `{...defaultOptions, ..._options}`: each supplied field overrides its
   * default on its own; a missing options object or field keeps the default
   * (':' and the value's `toString`).
   */
  function ResolveOptions<T>(options: Option<ReplacementOptions<T>>, toString: T -> string): (r: Settings<T>)
    ensures options.Some? && options.value.tokenSeparator.Some? ==> r.tokenSeparator == options.value.tokenSeparator.value
    ensures (options.None? || options.value.tokenSeparator.None?) ==> r.tokenSeparator == DefaultSeparator
    ensures options.Some? && options.value.transformer.Some? ==> r.transformer == options.value.transformer.value
    ensures (options.None? || options.value.transformer.None?) ==> r.transformer == toString
  {
    var supplied := options.GetOr(ReplacementOptions(None, None));
    Settings(supplied.tokenSeparator.GetOr(DefaultSeparator), supplied.transformer.GetOr(toString))
  }

  /** The separator the options lead to is not empty. */
  predicate SeparatorAllowed<T>(options: Option<ReplacementOptions<T>>) {
    options.None? || options.value.tokenSeparator.None? || |options.value.tokenSeparator.value| > 0
  }

  /** `obj[section]` is truthy: the key is an own key and its value is truthy. */
  predicate Matched<T>(section: string, obj: map<string, T>, truthy: T -> bool) {
    section in obj && truthy(obj[section])
  }

  /** The section after classification: the transformed value when matched, the section itself otherwise. */
  function Classify<T>(section: string, obj: map<string, T>, truthy: T -> bool, transformer: T -> string): string {
    if Matched(section, obj, truthy) then transformer(obj[section]) else section
  }

  /** `split.map(...)`: every section classified on its own. */
  function UpdateSections<T>(split: seq<string>, obj: map<string, T>, truthy: T -> bool, transformer: T -> string): (updated: seq<string>)
    ensures |updated| == |split|
    ensures forall i :: 0 <= i < |split| && Matched(split[i], obj, truthy) ==> updated[i] == transformer(obj[split[i]])
    ensures forall i :: 0 <= i < |split| && !Matched(split[i], obj, truthy) ==> updated[i] == split[i]
  {
    seq(|split|, i requires 0 <= i < |split| => Classify(split[i], obj, truthy, transformer))
  }

  /** Section `i` was left unchanged, judged by string equality as the source does. */
  predicate Unchanged(split: seq<string>, updated: seq<string>, i: int)
    requires |split| == |updated| && 0 <= i < |split|
  {
    split[i] == updated[i]
  }

  /** What is emitted before section `i`: the glue when `i` and its left neighbour are both unchanged, nothing otherwise. */
  function Lead(split: seq<string>, updated: seq<string>, i: int, glue: string): string
    requires |split| == |updated| && 0 <= i < |split|
  {
    if 0 < i && Unchanged(split, updated, i - 1) && Unchanged(split, updated, i) then glue else ""
  }

  /** What the loop appends for section `i`: its lead followed by the updated section. */
  function Pieces(split: seq<string>, updated: seq<string>, glue: string): (pieces: seq<string>)
    requires |split| == |updated|
    ensures |pieces| == |split|
  {
    seq(|split|, i requires 0 <= i < |split| => Lead(split, updated, i, glue) + updated[i])
  }

  lemma PieceAt(split: seq<string>, updated: seq<string>, glue: string, i: int)
    requires |split| == |updated| && 0 <= i < |split|
    ensures Pieces(split, updated, glue)[i] == Lead(split, updated, i, glue) + updated[i]
  {
  }

  /** A piece is the glue and the section when both neighbours are unchanged, else the section alone. */
  lemma PieceCases(split: seq<string>, updated: seq<string>, glue: string, i: int)
    requires |split| == |updated| && 0 <= i < |split|
    ensures Pieces(split, updated, glue)[i]
         == if 0 < i && split[i - 1] == updated[i - 1] && split[i] == updated[i] then glue + updated[i] else updated[i]
  {
    PieceAt(split, updated, glue, i);
    assert "" + updated[i] == updated[i];
  }

  /** One more piece: the joined prefix grows by that piece. */
  lemma PiecesGrow(pieces: seq<string>, i: int)
    requires 0 <= i < |pieces|
    ensures Join(pieces[..i + 1], "") == Join(pieces[..i], "") + pieces[i]
  {
    assert pieces[..i + 1] == pieces[..i] + [pieces[i]];
    JoinEmptySnoc(pieces[..i], pieces[i]);
  }

  /** The reassembled output: the pieces one after the other. */
  function Rebuild(split: seq<string>, updated: seq<string>, glue: string): string
    requires |split| == |updated|
  {
    Join(Pieces(split, updated, glue), "")
  }

  /** Number of neighbouring pairs of sections that were both left unchanged. */
  function PairCount(split: seq<string>, updated: seq<string>): nat
    requires |split| == |updated|
    decreases |split|
  {
    if |split| <= 1 then 0
    else
      var n := |split| - 1;
      PairCount(split[..n], updated[..n]) + if Unchanged(split, updated, n - 1) && Unchanged(split, updated, n) then 1 else 0
  }

  /** The result `replaceTokens(str, obj, options)` returns. */
  function Replaced<T>(str: string, obj: map<string, T>, options: Option<ReplacementOptions<T>>, rt: Runtime<T>): string
    requires SeparatorAllowed(options)
  {
    var settings := ResolveOptions(options, rt.toString);
    var split := Split(str, settings.tokenSeparator);
    Rebuild(split, UpdateSections(split, obj, rt.truthy, settings.transformer), ReinsertedText)
  }

  /** `replaceTokens` (src/replacement.ts:78-115). */
  method ReplaceTokens<T>(str: string, obj: map<string, T>, options: Option<ReplacementOptions<T>>, rt: Runtime<T>)
    returns (outStr: string)
    requires SeparatorAllowed(options)
    ensures outStr == Replaced(str, obj, options, rt)
  {
    var settings := ResolveOptions(options, rt.toString);
    var split := Split(str, settings.tokenSeparator);
    var updated := UpdateSections(split, obj, rt.truthy, settings.transformer);
    outStr := Reassemble(split, updated);
  }

  /**
   * The reassembly loop of src/replacement.ts:100-112: append every updated
   * section, preceded by ':' when it and its left neighbour are both unchanged.
   */
  method Reassemble(split: seq<string>, updated: seq<string>) returns (outStr: string)
    requires |split| == |updated|
    ensures outStr == Rebuild(split, updated, ReinsertedText)
  {
    outStr := "";
    ghost var pieces := Pieces(split, updated, ReinsertedText);
    for i := 0 to |split|
      invariant outStr == Join(pieces[..i], "")
    {
      PiecesGrow(pieces, i);
      PieceCases(split, updated, ReinsertedText, i);
      if i == 0 {
        outStr := outStr + updated[i];
      } else if split[i - 1] == updated[i - 1] && split[i] == updated[i] {
        outStr := outStr + (ReinsertedText + updated[i]);
      } else {
        outStr := outStr + updated[i];
      }
    }
    assert pieces[..|split|] == pieces;
  }

  // ---------------------------------------------------------------------
  // Classification

  /**
   * A section counts as unchanged exactly when it is not matched or its
   * replacement text happens to equal the section itself.
   */
  lemma UnchangedIff<T>(section: string, obj: map<string, T>, truthy: T -> bool, transformer: T -> string)
    ensures Classify(section, obj, truthy, transformer) == section
      <==> !Matched(section, obj, truthy) || transformer(obj[section]) == section
  {
  }

  /** With no section matched, classification leaves every section as it is. */
  lemma NothingMatchedKeepsSections<T>(split: seq<string>, obj: map<string, T>, truthy: T -> bool, transformer: T -> string)
    requires forall i :: 0 <= i < |split| ==> !Matched(split[i], obj, truthy)
    ensures UpdateSections(split, obj, truthy, transformer) == split
  {
  }

  /** A key whose value is falsy behaves exactly as a missing key. */
  lemma FalsyIsAbsent<T>(str: string, obj: map<string, T>, key: string, options: Option<ReplacementOptions<T>>, rt: Runtime<T>)
    requires SeparatorAllowed(options)
    requires key in obj && !rt.truthy(obj[key])
    ensures Replaced(str, obj, options, rt) == Replaced(str, obj - {key}, options, rt)
  {
    var settings := ResolveOptions(options, rt.toString);
    var split := Split(str, settings.tokenSeparator);
    assert UpdateSections(split, obj, rt.truthy, settings.transformer)
        == UpdateSections(split, obj - {key}, rt.truthy, settings.transformer);
  }

  // ---------------------------------------------------------------------
  // Reassembly

  /** The pieces of a prefix are the prefix of the pieces: a lead looks only to the left. */
  lemma PiecesPrefix(split: seq<string>, updated: seq<string>, glue: string, n: int)
    requires |split| == |updated| && 0 <= n <= |split|
    ensures Pieces(split, updated, glue)[..n] == Pieces(split[..n], updated[..n], glue)
  {
  }

  /**
   * Between sections `i - 1` and `i` the output holds exactly `Lead(i)`:
   * the glue when both were unchanged, nothing otherwise.
   */
  lemma RebuildAt(split: seq<string>, updated: seq<string>, i: int, glue: string)
    requires |split| == |updated| && 0 < i < |split|
    ensures Rebuild(split, updated, glue)
         == Rebuild(split[..i], updated[..i], glue) + (Lead(split, updated, i, glue) + Rebuild(split[i..], updated[i..], glue))
  {
    var pieces := Pieces(split, updated, glue);
    var rest := Join(pieces[i + 1..], "");
    JoinAround(pieces, i);
    PieceAt(split, updated, glue, i);
    PiecesPrefix(split, updated, glue, i);
    RebuildSuffix(split, updated, glue, i);
    assert (Lead(split, updated, i, glue) + updated[i]) + rest
        == Lead(split, updated, i, glue) + (updated[i] + rest);
  }

  /** A suffix rebuilt on its own starts with its first section, with no lead in front. */
  lemma RebuildSuffix(split: seq<string>, updated: seq<string>, glue: string, i: int)
    requires |split| == |updated| && 0 <= i < |split|
    ensures Rebuild(split[i..], updated[i..], glue) == updated[i] + Join(Pieces(split, updated, glue)[i + 1..], "")
  {
    var tail := Pieces(split, updated, glue)[i + 1..];
    SuffixPieces(split, updated, glue, i);
    JoinAppend([updated[i]], tail);
  }

  /** The pieces of a suffix: its first section alone, then the same pieces as the whole. */
  lemma SuffixPieces(split: seq<string>, updated: seq<string>, glue: string, i: int)
    requires |split| == |updated| && 0 <= i < |split|
    ensures Pieces(split[i..], updated[i..], glue) == [updated[i]] + Pieces(split, updated, glue)[i + 1..]
  {
    var later := Pieces(split[i..], updated[i..], glue);
    var expected := [updated[i]] + Pieces(split, updated, glue)[i + 1..];
    assert |later| == |expected|;
    forall k | 0 <= k < |later|
      ensures later[k] == expected[k]
    {
      if k == 0 {
        PieceAt(split[i..], updated[i..], glue, 0);
        assert later[0] == "" + updated[i] == updated[i];
      } else {
        PieceShift(split, updated, i, k, glue);
      }
    }
  }

  /** Past its first section, a suffix has the same pieces as the whole. */
  lemma PieceShift(split: seq<string>, updated: seq<string>, i: int, k: int, glue: string)
    requires |split| == |updated| && 0 <= i && 0 < k && i + k < |split|
    ensures Pieces(split[i..], updated[i..], glue)[k] == Pieces(split, updated, glue)[i + k]
  {
    var s', u' := split[i..], updated[i..];
    PieceAt(s', u', glue, k);
    PieceAt(split, updated, glue, i + k);
    assert s'[k - 1] == split[i + k - 1] && s'[k] == split[i + k];
    assert u'[k - 1] == updated[i + k - 1] && u'[k] == updated[i + k];
    assert Lead(s', u', k, glue) == Lead(split, updated, i + k, glue);
  }

  /** The output begins with the first updated section: no separator is put in front of it. */
  lemma RebuildStartsWithFirst(split: seq<string>, updated: seq<string>, glue: string)
    requires |split| == |updated| && |split| > 0
    ensures |updated[0]| <= |Rebuild(split, updated, glue)|
    ensures Rebuild(split, updated, glue)[..|updated[0]|] == updated[0]
  {
    var pieces := Pieces(split, updated, glue);
    assert pieces[0] == "" + updated[0] == updated[0];
    assert pieces == [updated[0]] + pieces[1..];
    JoinAppend([updated[0]], pieces[1..]);
  }

  /** Each unchanged pair contributes one glue; nothing else is added or lost. */
  lemma {:induction false} RebuildLength(split: seq<string>, updated: seq<string>, glue: string)
    requires |split| == |updated|
    ensures |Rebuild(split, updated, glue)| == SumLen(updated) + |glue| * PairCount(split, updated)
    decreases |split|
  {
    JoinEmptyLength(Pieces(split, updated, glue));
    PiecesLength(split, updated, glue);
  }

  lemma {:induction false} PiecesLength(split: seq<string>, updated: seq<string>, glue: string)
    requires |split| == |updated|
    ensures SumLen(Pieces(split, updated, glue)) == SumLen(updated) + |glue| * PairCount(split, updated)
    decreases |split|
  {
    if |split| > 0 {
      var n := |split| - 1;
      var pieces := Pieces(split, updated, glue);
      PiecesLength(split[..n], updated[..n], glue);
      assert SumLen(pieces) == SumLen(Pieces(split[..n], updated[..n], glue)) + |pieces[n]| by {
        PiecesPrefix(split, updated, glue, n);
      }
      assert |pieces[n]| == |Lead(split, updated, n, glue)| + |updated[n]| by {
        PieceAt(split, updated, glue, n);
      }
      LeadCounted(split, updated, glue);
    }
  }

  /** When every section is unchanged the output is the sections joined with the glue. */
  lemma {:induction false} RebuildUnchanged(split: seq<string>, glue: string)
    ensures Rebuild(split, split, glue) == Join(split, glue)
    decreases |split|
  {
    if |split| > 0 {
      var n := |split| - 1;
      var pieces := Pieces(split, split, glue);
      RebuildUnchanged(split[..n], glue);
      PiecesPrefix(split, split, glue, n);
      assert pieces == pieces[..n] + [pieces[n]];
      JoinSnoc(pieces[..n], pieces[n], "");
      assert split == split[..n] + [split[n]];
      JoinSnoc(split[..n], split[n], glue);
    }
  }

  /** The lead of the last section is the glue exactly when the last pair adds to the count. */
  lemma LeadCounted(split: seq<string>, updated: seq<string>, glue: string)
    requires |split| == |updated| && |split| > 0
    ensures var n := |split| - 1;
      |Lead(split, updated, n, glue)| + |glue| * PairCount(split[..n], updated[..n]) == |glue| * PairCount(split, updated)
  {
    var n := |split| - 1;
    var p := PairCount(split[..n], updated[..n]);
    if 0 < n && Unchanged(split, updated, n - 1) && Unchanged(split, updated, n) {
      assert PairCount(split, updated) == p + 1;
      MulStep(|glue|, p);
    } else {
      assert PairCount(split, updated) == p;
    }
  }

  lemma MulStep(a: nat, p: nat)
    ensures a * (p + 1) == a * p + a
  {
  }

  lemma MulAtLeast(a: nat, p: nat)
    requires a > 0
    ensures a * p >= p
  {
  }

  /** With no unchanged neighbouring pair every piece is just its section. */
  lemma {:induction false} PiecesWithoutPairs(split: seq<string>, updated: seq<string>, glue: string)
    requires |split| == |updated| && PairCount(split, updated) == 0
    ensures Pieces(split, updated, glue) == updated
    decreases |split|
  {
    if |split| > 0 {
      var n := |split| - 1;
      PiecesWithoutPairs(split[..n], updated[..n], glue);
      PiecesPrefix(split, updated, glue, n);
      var pieces := Pieces(split, updated, glue);
      assert pieces == pieces[..n] + [pieces[n]];
      assert Lead(split, updated, n, glue) == "";
      assert pieces[n] == "" + updated[n] == updated[n];
      assert updated == updated[..n] + [updated[n]];
    }
  }

  /**
   * The output is the plain concatenation of the updated sections exactly
   * when no two neighbouring sections were both left unchanged.
   */
  lemma RebuildIsConcatenationIff(split: seq<string>, updated: seq<string>, glue: string)
    requires |split| == |updated| && |glue| > 0
    ensures Rebuild(split, updated, glue) == Join(updated, "") <==> PairCount(split, updated) == 0
  {
    if PairCount(split, updated) == 0 {
      PiecesWithoutPairs(split, updated, glue);
    } else {
      RebuildLength(split, updated, glue);
      JoinEmptyLength(updated);
      MulAtLeast(|glue|, PairCount(split, updated));
    }
  }

  // ---------------------------------------------------------------------
  // The whole function

  /**
   * With no section matched, every occurrence of the separator is replaced
   * by ':' — with a custom separator the separator itself is not restored.
   */
  lemma NothingMatchedColons<T>(str: string, obj: map<string, T>, options: Option<ReplacementOptions<T>>, rt: Runtime<T>)
    requires SeparatorAllowed(options)
    requires var sep := ResolveOptions(options, rt.toString).tokenSeparator;
      forall i :: 0 <= i < |Split(str, sep)| ==> !Matched(Split(str, sep)[i], obj, rt.truthy)
    ensures Replaced(str, obj, options, rt) == ReplaceAll(str, ResolveOptions(options, rt.toString).tokenSeparator, ":")
  {
    var settings := ResolveOptions(options, rt.toString);
    var split := Split(str, settings.tokenSeparator);
    NothingMatchedKeepsSections(split, obj, rt.truthy, settings.transformer);
    RebuildUnchanged(split, ReinsertedText);
    JoinSplit(str, settings.tokenSeparator, ReinsertedText);
  }

  /** Identity: with the default separator and no section matched, the input comes back unchanged. */
  lemma Identity<T>(str: string, obj: map<string, T>, options: Option<ReplacementOptions<T>>, rt: Runtime<T>)
    requires SeparatorAllowed(options)
    requires ResolveOptions(options, rt.toString).tokenSeparator == DefaultSeparator
    requires forall i :: 0 <= i < |Split(str, DefaultSeparator)| ==> !Matched(Split(str, DefaultSeparator)[i], obj, rt.truthy)
    ensures Replaced(str, obj, options, rt) == str
  {
    var settings := ResolveOptions(options, rt.toString);
    var split := Split(str, DefaultSeparator);
    NothingMatchedKeepsSections(split, obj, rt.truthy, settings.transformer);
    RebuildUnchanged(split, ReinsertedText);
  }

  /** An empty token object gives the input back under the default separator. */
  lemma IdentityEmptyObject<T>(str: string, rt: Runtime<T>)
    ensures Replaced(str, map[], None, rt) == str
  {
    Identity(str, map[], None, rt);
  }

  /**
   * Without any occurrence of the separator there is one section: the output
   * is the transformed value if the whole input is a truthy key, else the input.
   */
  lemma SingleSection<T>(str: string, obj: map<string, T>, options: Option<ReplacementOptions<T>>, rt: Runtime<T>)
    requires SeparatorAllowed(options)
    requires NoMatchBefore(str, |str|, ResolveOptions(options, rt.toString).tokenSeparator)
    ensures Replaced(str, obj, options, rt)
         == if Matched(str, obj, rt.truthy) then ResolveOptions(options, rt.toString).transformer(obj[str]) else str
  {
    var settings := ResolveOptions(options, rt.toString);
    SplitWithoutSeparator(str, settings.tokenSeparator);
    var updated := UpdateSections([str], obj, rt.truthy, settings.transformer);
    assert Pieces([str], updated, ReinsertedText)[0] == "" + updated[0] == updated[0];
    assert Pieces([str], updated, ReinsertedText) == [updated[0]];
  }

  // ---------------------------------------------------------------------
  // Reinsertion with the configured separator

  /** The corrected reassembly: the configured separator, not ':', is put back between two unchanged sections (src/replacement.ts:107). */
  function ReplacedIntended<T>(str: string, obj: map<string, T>, options: Option<ReplacementOptions<T>>, rt: Runtime<T>): string
    requires SeparatorAllowed(options)
  {
    var settings := ResolveOptions(options, rt.toString);
    var split := Split(str, settings.tokenSeparator);
    Rebuild(split, UpdateSections(split, obj, rt.truthy, settings.transformer), settings.tokenSeparator)
  }

  /** For every separator, the intended reassembly gives the input back when no section is matched. */
  lemma IntendedIdentity<T>(str: string, obj: map<string, T>, options: Option<ReplacementOptions<T>>, rt: Runtime<T>)
    requires SeparatorAllowed(options)
    requires var sep := ResolveOptions(options, rt.toString).tokenSeparator;
      forall i :: 0 <= i < |Split(str, sep)| ==> !Matched(Split(str, sep)[i], obj, rt.truthy)
    ensures ReplacedIntended(str, obj, options, rt) == str
  {
    var settings := ResolveOptions(options, rt.toString);
    var split := Split(str, settings.tokenSeparator);
    NothingMatchedKeepsSections(split, obj, rt.truthy, settings.transformer);
    RebuildUnchanged(split, settings.tokenSeparator);
  }

  /** With the default separator the source and the intended reassembly agree on every input. */
  lemma IntendedAgreesOnDefault<T>(str: string, obj: map<string, T>, options: Option<ReplacementOptions<T>>, rt: Runtime<T>)
    requires SeparatorAllowed(options)
    requires ResolveOptions(options, rt.toString).tokenSeparator == DefaultSeparator
    ensures ReplacedIntended(str, obj, options, rt) == Replaced(str, obj, options, rt)
  {
  }
}
