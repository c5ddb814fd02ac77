/**
 * `replaceTokens` of replacement.js, the compiled build of an earlier version
 * of src/replacement.ts: the same option merge, split and classification,
 * but the sections are put back together with `updated.join("")`, so no
 * separator is ever reinserted.
 */
module ReplacementJs {
  import opened Wrappers
  import opened JsText
  import Replacement

  /** `replaceTokens` (replacement.js:87-100). */
  function ReplaceTokens<T>(str: string, obj: map<string, T>, options: Option<Replacement.ReplacementOptions<T>>, rt: Replacement.Runtime<T>): string
    requires Replacement.SeparatorAllowed(options)
  {
    var settings := Replacement.ResolveOptions(options, rt.toString);
    var split := Split(str, settings.tokenSeparator);
    Join(Replacement.UpdateSections(split, obj, rt.truthy, settings.transformer), "")
  }

  /**
   * The merge is field by field: omitting the options object, or omitting a
   * field, is the same as supplying that field's default.
   */
  lemma FieldwiseDefaults<T>(str: string, obj: map<string, T>, sep: string, transformer: T -> string, rt: Replacement.Runtime<T>)
    requires |sep| > 0
    ensures ReplaceTokens(str, obj, None, rt)
         == ReplaceTokens(str, obj, Some(Replacement.ReplacementOptions(Some(":"), Some(rt.toString))), rt)
    ensures ReplaceTokens(str, obj, Some(Replacement.ReplacementOptions(Some(sep), None)), rt)
         == ReplaceTokens(str, obj, Some(Replacement.ReplacementOptions(Some(sep), Some(rt.toString))), rt)
    ensures ReplaceTokens(str, obj, Some(Replacement.ReplacementOptions(None, Some(transformer))), rt)
         == ReplaceTokens(str, obj, Some(Replacement.ReplacementOptions(Some(":"), Some(transformer))), rt)
  {
  }

  /** A key whose value is falsy behaves exactly as a missing key. */
  lemma FalsyIsAbsent<T>(str: string, obj: map<string, T>, key: string, options: Option<Replacement.ReplacementOptions<T>>, rt: Replacement.Runtime<T>)
    requires Replacement.SeparatorAllowed(options)
    requires key in obj && !rt.truthy(obj[key])
    ensures ReplaceTokens(str, obj, options, rt) == ReplaceTokens(str, obj - {key}, options, rt)
  {
    var settings := Replacement.ResolveOptions(options, rt.toString);
    var split := Split(str, settings.tokenSeparator);
    assert Replacement.UpdateSections(split, obj, rt.truthy, settings.transformer)
        == Replacement.UpdateSections(split, obj - {key}, rt.truthy, settings.transformer);
  }

  /** The output holds exactly the characters of the updated sections, nothing more. */
  lemma OutputLength<T>(str: string, obj: map<string, T>, options: Option<Replacement.ReplacementOptions<T>>, rt: Replacement.Runtime<T>)
    requires Replacement.SeparatorAllowed(options)
    ensures var settings := Replacement.ResolveOptions(options, rt.toString);
      var split := Split(str, settings.tokenSeparator);
      |ReplaceTokens(str, obj, options, rt)| == SumLen(Replacement.UpdateSections(split, obj, rt.truthy, settings.transformer))
  {
    var settings := Replacement.ResolveOptions(options, rt.toString);
    var split := Split(str, settings.tokenSeparator);
    JoinEmptyLength(Replacement.UpdateSections(split, obj, rt.truthy, settings.transformer));
  }

  /** With no section matched, the output is the input with every separator occurrence deleted. */
  lemma NothingMatchedDeletesSeparators<T>(str: string, obj: map<string, T>, options: Option<Replacement.ReplacementOptions<T>>, rt: Replacement.Runtime<T>)
    requires Replacement.SeparatorAllowed(options)
    requires var sep := Replacement.ResolveOptions(options, rt.toString).tokenSeparator;
      forall i :: 0 <= i < |Split(str, sep)| ==> !Replacement.Matched(Split(str, sep)[i], obj, rt.truthy)
    ensures ReplaceTokens(str, obj, options, rt) == ReplaceAll(str, Replacement.ResolveOptions(options, rt.toString).tokenSeparator, "")
  {
    var settings := Replacement.ResolveOptions(options, rt.toString);
    var split := Split(str, settings.tokenSeparator);
    Replacement.NothingMatchedKeepsSections(split, obj, rt.truthy, settings.transformer);
    JoinSplit(str, settings.tokenSeparator, "");
  }

  /**
   * The compiled build and src/replacement.ts give the same output exactly
   * when no two neighbouring sections were both left unchanged.
   */
  lemma AgreesWithCurrent<T>(str: string, obj: map<string, T>, options: Option<Replacement.ReplacementOptions<T>>, rt: Replacement.Runtime<T>)
    requires Replacement.SeparatorAllowed(options)
    ensures var settings := Replacement.ResolveOptions(options, rt.toString);
      var split := Split(str, settings.tokenSeparator);
      var updated := Replacement.UpdateSections(split, obj, rt.truthy, settings.transformer);
      ReplaceTokens(str, obj, options, rt) == Replacement.Replaced(str, obj, options, rt)
      <==> Replacement.PairCount(split, updated) == 0
  {
    var settings := Replacement.ResolveOptions(options, rt.toString);
    var split := Split(str, settings.tokenSeparator);
    var updated := Replacement.UpdateSections(split, obj, rt.truthy, settings.transformer);
    Replacement.RebuildIsConcatenationIff(split, updated, Replacement.ReinsertedText);
  }
}
