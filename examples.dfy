/**
 * Concrete inputs evaluated in both versions: the five cases of src/replacement.spec.ts
 * and the examples of the doc comments, with string token values (truthy when
 * non-empty; a string's `toString()` is the string itself).
 */
module ReplacementExamples {
  import opened Wrappers
  import opened JsText
  import opened Replacement
  import ReplacementJs

  /** The runtime view of string values. */
  function StringRuntime(): Runtime<string> {
    Runtime((s: string) => |s| > 0, (s: string) => s)
  }

  /** Parts that do not contain the separator's first character are a leftmost split of their join. */
  lemma SplitLiteral(parts: seq<string>, sep: string)
    requires |sep| > 0 && |parts| >= 1
    requires forall i :: 0 <= i < |parts| ==> sep[0] !in parts[i]
    ensures Split(Join(parts, sep), sep) == parts
  {
    forall i | 0 <= i < |parts| - 1
      ensures NoMatchBefore(parts[i] + sep, |parts[i]|, sep)
    {
      NoMatchInPrefix(parts[i], sep, sep);
    }
    NoMatchInPrefix(parts[|parts| - 1], sep, "");
    assert parts[|parts| - 1] + "" == parts[|parts| - 1];
    SplitJoin(parts, sep);
  }

  lemma JoinTwo(a: string, b: string, glue: string)
    ensures Join([a, b], glue) == a + glue + b
  {
    assert [a, b][1..] == [b];
  }

  lemma JoinThree(a: string, b: string, c: string, glue: string)
    ensures Join([a, b, c], glue) == a + glue + b + glue + c
  {
    assert [a, b, c][1..] == [b, c];
    JoinTwo(b, c, glue);
  }

  lemma JoinFive(a: string, b: string, c: string, d: string, e: string, glue: string)
    ensures Join([a, b, c, d, e], glue) == a + glue + b + glue + c + glue + d + glue + e
  {
    assert [a, b, c, d, e][1..] == [b, c, d, e];
    assert [b, c, d, e][1..] == [c, d, e];
    JoinThree(c, d, e, glue);
  }

  /** Classification of concrete sections, one section at a time. */
  lemma UpdatedAre<T>(split: seq<string>, obj: map<string, T>, truthy: T -> bool, transformer: T -> string, expected: seq<string>)
    requires |split| == |expected|
    requires forall i :: 0 <= i < |split| ==> expected[i] == Classify(split[i], obj, truthy, transformer)
    ensures UpdateSections(split, obj, truthy, transformer) == expected
  {
  }

  /** The three versions in terms of the split and the updated sections they reach. */
  lemma Evaluation<T>(str: string, obj: map<string, T>, options: Option<ReplacementOptions<T>>, rt: Runtime<T>,
                      sep: string, split: seq<string>, updated: seq<string>)
    requires SeparatorAllowed(options)
    requires ResolveOptions(options, rt.toString).tokenSeparator == sep
    requires Split(str, sep) == split
    requires UpdateSections(split, obj, rt.truthy, ResolveOptions(options, rt.toString).transformer) == updated
    ensures Replaced(str, obj, options, rt) == Rebuild(split, updated, ReinsertedText)
    ensures ReplacementJs.ReplaceTokens(str, obj, options, rt) == Join(updated, "")
    ensures ReplacedIntended(str, obj, options, rt) == Rebuild(split, updated, sep)
  {
  }

  /** Sections without the separator's first character are what their join splits back into. */
  lemma SplitThree(a: string, b: string, c: string, sep: string)
    requires |sep| > 0 && sep[0] !in a && sep[0] !in b && sep[0] !in c
    ensures Split(a + sep + b + sep + c, sep) == [a, b, c]
  {
    JoinThree(a, b, c, sep);
    SplitLiteral([a, b, c], sep);
  }

  lemma SplitFive(a: string, b: string, c: string, d: string, e: string, sep: string)
    requires |sep| > 0 && sep[0] !in a && sep[0] !in b && sep[0] !in c && sep[0] !in d && sep[0] !in e
    ensures Split(a + sep + b + sep + c + sep + d + sep + e, sep) == [a, b, c, d, e]
  {
    JoinFive(a, b, c, d, e, sep);
    SplitLiteral([a, b, c, d, e], sep);
  }

  lemma SplitTwo(a: string, b: string, sep: string)
    requires |sep| > 0 && sep[0] !in a && sep[0] !in b
    ensures Split(a + sep + b, sep) == [a, b]
  {
    JoinTwo(a, b, sep);
    SplitLiteral([a, b], sep);
  }

  /** A changed section between two others: no colon is put back anywhere. */
  lemma RebuildThree(a: string, b: string, c: string, value: string)
    requires value != b
    ensures Rebuild([a, b, c], [a, value, c], ReinsertedText) == a + value + c
    ensures Join([a, value, c], "") == a + value + c
  {
    PiecesThree(a, b, c, value);
    JoinThree(a, value, c, "");
  }

  lemma PiecesThree(a: string, b: string, c: string, value: string)
    requires value != b
    ensures Pieces([a, b, c], [a, value, c], ReinsertedText) == [a, value, c]
  {
    var split, updated := [a, b, c], [a, value, c];
    forall i | 0 <= i < 3
      ensures Pieces(split, updated, ReinsertedText)[i] == updated[i]
    {
      PieceCases(split, updated, ReinsertedText, i);
    }
  }

  lemma RebuildFive(a: string, b: string, c: string, d: string, e: string, v1: string, v2: string)
    requires v1 != b && v2 != d
    ensures Rebuild([a, b, c, d, e], [a, v1, c, v2, e], ReinsertedText) == a + v1 + c + v2 + e
    ensures Join([a, v1, c, v2, e], "") == a + v1 + c + v2 + e
  {
    PiecesFive(a, b, c, d, e, v1, v2);
    JoinFive(a, v1, c, v2, e, "");
  }

  lemma PiecesFive(a: string, b: string, c: string, d: string, e: string, v1: string, v2: string)
    requires v1 != b && v2 != d
    ensures Pieces([a, b, c, d, e], [a, v1, c, v2, e], ReinsertedText) == [a, v1, c, v2, e]
  {
    var split, updated := [a, b, c, d, e], [a, v1, c, v2, e];
    forall i | 0 <= i < 5
      ensures Pieces(split, updated, ReinsertedText)[i] == updated[i]
    {
      PieceCases(split, updated, ReinsertedText, i);
    }
  }

  /** Two unchanged sections: glued with `glue` by the reassembly, side by side by a plain join. */
  lemma RebuildTwo(a: string, b: string, glue: string)
    ensures Rebuild([a, b], [a, b], glue) == a + glue + b
    ensures Join([a, b], "") == a + b
  {
    PiecesTwo(a, b, glue);
    JoinTwo(a, glue + b, "");
    JoinTwo(a, b, "");
  }

  lemma PiecesTwo(a: string, b: string, glue: string)
    ensures Pieces([a, b], [a, b], glue) == [a, glue + b]
  {
    var pieces := [a, glue + b];
    forall i | 0 <= i < 2
      ensures Pieces([a, b], [a, b], glue)[i] == pieces[i]
    {
      PieceCases([a, b], [a, b], glue, i);
    }
  }

  /** A section that is left as it is: no separator starts in it and no key matches it. */
  predicate Plain<T>(section: string, obj: map<string, T>, truthy: T -> bool, sep: string)
    requires |sep| > 0
  {
    sep[0] !in section && !Matched(section, obj, truthy)
  }

  /** A token: no separator starts in it, a key matches it and its transformed value differs from it. */
  predicate Token<T>(section: string, obj: map<string, T>, truthy: T -> bool, transformer: T -> string, sep: string)
    requires |sep| > 0
  {
    sep[0] !in section && Matched(section, obj, truthy) && transformer(obj[section]) != section
  }

  /**
   * One token between two plain sections: both versions put the token's
   * transformed value in place of the token and its two separators.
   */
  lemma OneToken<T>(before: string, token: string, after: string, obj: map<string, T>,
                    options: Option<ReplacementOptions<T>>, rt: Runtime<T>, sep: string)
    requires SeparatorAllowed(options)
    requires ResolveOptions(options, rt.toString).tokenSeparator == sep && |sep| > 0
    requires Plain(before, obj, rt.truthy, sep) && Plain(after, obj, rt.truthy, sep)
    requires Token(token, obj, rt.truthy, ResolveOptions(options, rt.toString).transformer, sep)
    ensures var value := ResolveOptions(options, rt.toString).transformer(obj[token]);
      Replaced(before + sep + token + sep + after, obj, options, rt) == before + value + after &&
      ReplacementJs.ReplaceTokens(before + sep + token + sep + after, obj, options, rt) == before + value + after
  {
    var settings := ResolveOptions(options, rt.toString);
    var value := settings.transformer(obj[token]);
    SplitThree(before, token, after, sep);
    UpdatedAre([before, token, after], obj, rt.truthy, settings.transformer, [before, value, after]);
    Evaluation(before + sep + token + sep + after, obj, options, rt, sep, [before, token, after], [before, value, after]);
    RebuildThree(before, token, after, value);
  }

  /** Two tokens with plain sections around them: each is replaced by its transformed value. */
  lemma TwoTokens<T>(a: string, token1: string, b: string, token2: string, c: string, obj: map<string, T>,
                     options: Option<ReplacementOptions<T>>, rt: Runtime<T>, sep: string)
    requires SeparatorAllowed(options)
    requires ResolveOptions(options, rt.toString).tokenSeparator == sep && |sep| > 0
    requires Plain(a, obj, rt.truthy, sep) && Plain(b, obj, rt.truthy, sep) && Plain(c, obj, rt.truthy, sep)
    requires Token(token1, obj, rt.truthy, ResolveOptions(options, rt.toString).transformer, sep)
    requires Token(token2, obj, rt.truthy, ResolveOptions(options, rt.toString).transformer, sep)
    ensures var transformer := ResolveOptions(options, rt.toString).transformer;
      var out := a + transformer(obj[token1]) + b + transformer(obj[token2]) + c;
      Replaced(a + sep + token1 + sep + b + sep + token2 + sep + c, obj, options, rt) == out &&
      ReplacementJs.ReplaceTokens(a + sep + token1 + sep + b + sep + token2 + sep + c, obj, options, rt) == out
  {
    var settings := ResolveOptions(options, rt.toString);
    var v1, v2 := settings.transformer(obj[token1]), settings.transformer(obj[token2]);
    SplitFive(a, token1, b, token2, c, sep);
    UpdatedAre([a, token1, b, token2, c], obj, rt.truthy, settings.transformer, [a, v1, b, v2, c]);
    Evaluation(a + sep + token1 + sep + b + sep + token2 + sep + c, obj, options, rt, sep,
               [a, token1, b, token2, c], [a, v1, b, v2, c]);
    RebuildFive(a, token1, b, token2, c, v1, v2);
  }

  /**
   * Two plain sections: src/replacement.ts glues them with a colon whatever
   * the separator, replacement.js puts them side by side, and the intended
   * reassembly gives the input back.
   */
  lemma NoToken<T>(a: string, b: string, obj: map<string, T>, options: Option<ReplacementOptions<T>>, rt: Runtime<T>, sep: string)
    requires SeparatorAllowed(options)
    requires ResolveOptions(options, rt.toString).tokenSeparator == sep && |sep| > 0
    requires Plain(a, obj, rt.truthy, sep) && Plain(b, obj, rt.truthy, sep)
    ensures Replaced(a + sep + b, obj, options, rt) == a + ":" + b
    ensures ReplacementJs.ReplaceTokens(a + sep + b, obj, options, rt) == a + b
    ensures ReplacedIntended(a + sep + b, obj, options, rt) == a + sep + b
  {
    var settings := ResolveOptions(options, rt.toString);
    SplitTwo(a, b, sep);
    UpdatedAre([a, b], obj, rt.truthy, settings.transformer, [a, b]);
    Evaluation(a + sep + b, obj, options, rt, sep, [a, b], [a, b]);
    RebuildTwo(a, b, ReinsertedText);
    RebuildTwo(a, b, sep);
  }

  /** src/replacement.spec.ts:5-17. */
  lemma SingleTokenExample()
    ensures Replaced("Have a :quality: day today!", map["quality" := "good"], None, StringRuntime())
         == "Have a good day today!"
  {
    OneToken("Have a ", "quality", " day today!", map["quality" := "good"], None, StringRuntime(), ":");
    SingleTokenTexts();
  }

  lemma SingleTokenTexts()
    ensures "Have a " + ":" + "quality" + ":" + " day today!" == "Have a :quality: day today!"
    ensures "Have a " + "good" + " day today!" == "Have a good day today!"
  {
  }

  /** src/replacement.spec.ts:18-32. */
  lemma MultipleTokensExample()
    ensures Replaced("Have a :quality: day :when:!", map["quality" := "bad", "when" := "tomorrow"], None, StringRuntime())
         == "Have a bad day tomorrow!"
  {
    TwoTokens("Have a ", "quality", " day ", "when", "!", map["quality" := "bad", "when" := "tomorrow"], None, StringRuntime(), ":");
    MultipleTokensTexts();
  }

  lemma MultipleTokensTexts()
    ensures "Have a " + ":" + "quality" + ":" + " day " + ":" + "when" + ":" + "!" == "Have a :quality: day :when:!"
    ensures "Have a " + "bad" + " day " + "tomorrow" + "!" == "Have a bad day tomorrow!"
  {
  }

  /** src/replacement.spec.ts:33-48: colons are ordinary text under another separator. */
  lemma CustomSeparatorExample()
    ensures Replaced(":Have: :a <sep>quality<sep> day today!", map["quality" := "good"],
                     Some(ReplacementOptions(Some("<sep>"), None)), StringRuntime())
         == ":Have: :a good day today!"
  {
    OneToken(":Have: :a ", "quality", " day today!", map["quality" := "good"],
             Some(ReplacementOptions(Some("<sep>"), None)), StringRuntime(), "<sep>");
    CustomSeparatorTexts();
  }

  lemma CustomSeparatorTexts()
    ensures ":Have: :a " + "<sep>" + "quality" + "<sep>" + " day today!" == ":Have: :a <sep>quality<sep> day today!"
    ensures ":Have: :a " + "good" + " day today!" == ":Have: :a good day today!"
  {
  }

  /** Upper case of the ASCII letters, the part of `toUpperCase` the examples need. */
  function UpperAscii(s: string): (r: string)
    ensures |r| == |s|
    ensures forall i :: 0 <= i < |s| ==> ('a' <= s[i] <= 'z' ==> r[i] as int == s[i] as int - 32)
    ensures forall i :: 0 <= i < |s| ==> (!('a' <= s[i] <= 'z') ==> r[i] == s[i])
  {
    seq(|s|, i requires 0 <= i < |s| => if 'a' <= s[i] <= 'z' then (s[i] as int - 32) as char else s[i])
  }

  /** src/replacement.spec.ts:49-64. */
  lemma CustomTransformerExample()
    ensures Replaced("Have a :quality: day today!", map["quality" := "good"],
                     Some(ReplacementOptions(None, Some(UpperAscii))), StringRuntime())
         == "Have a GOOD day today!"
  {
    assert UpperAscii("good") == "GOOD";
    OneToken("Have a ", "quality", " day today!", map["quality" := "good"],
             Some(ReplacementOptions(None, Some(UpperAscii))), StringRuntime(), ":");
    CustomTransformerTexts();
  }

  lemma CustomTransformerTexts()
    ensures "Have a " + ":" + "quality" + ":" + " day today!" == "Have a :quality: day today!"
    ensures "Have a " + "GOOD" + " day today!" == "Have a GOOD day today!"
  {
  }

  /** src/replacement.spec.ts:65-81. */
  lemma TransformerAndSeparatorExample()
    ensures Replaced("Have a _quality_ day today!", map["quality" := "good"],
                     Some(ReplacementOptions(Some("_"), Some((a: string) => a + a))), StringRuntime())
         == "Have a goodgood day today!"
  {
    OneToken("Have a ", "quality", " day today!", map["quality" := "good"],
             Some(ReplacementOptions(Some("_"), Some((a: string) => a + a))), StringRuntime(), "_");
    TransformerAndSeparatorTexts();
  }

  lemma TransformerAndSeparatorTexts()
    ensures "Have a " + "_" + "quality" + "_" + " day today!" == "Have a _quality_ day today!"
    ensures "Have a " + ("good" + "good") + " day today!" == "Have a goodgood day today!"
  {
  }

  /** The basic example of the doc comment (src/replacement.ts:9-19, replacement.js:18-28), in both versions. */
  lemma DocBasicExample()
    ensures Replaced("this is :person: string", map["person" := "my"], None, StringRuntime()) == "this is my string"
    ensures ReplacementJs.ReplaceTokens("this is :person: string", map["person" := "my"], None, StringRuntime()) == "this is my string"
  {
    OneToken("this is ", "person", " string", map["person" := "my"], None, StringRuntime(), ":");
    DocBasicTexts();
  }

  lemma DocBasicTexts()
    ensures "this is " + ":" + "person" + ":" + " string" == "this is :person: string"
    ensures "this is " + "my" + " string" == "this is my string"
  {
  }

  /** The multiple token example of the doc comment (src/replacement.ts:21-32, replacement.js:30-41), in both versions. */
  lemma DocMultipleExample()
    ensures Replaced("my name is :name: and I am :age: years old", map["name" := "John", "age" := "100"], None, StringRuntime())
         == "my name is John and I am 100 years old"
    ensures ReplacementJs.ReplaceTokens("my name is :name: and I am :age: years old", map["name" := "John", "age" := "100"], None, StringRuntime())
         == "my name is John and I am 100 years old"
  {
    DocMultipleSections();
    TwoTokens("my name is ", "name", " and I am ", "age", " years old", map["name" := "John", "age" := "100"], None, StringRuntime(), ":");
    DocMultipleInput();
    DocMultipleOutput();
  }

  lemma DocMultipleSections()
    ensures var obj := map["name" := "John", "age" := "100"];
      Plain("my name is ", obj, StringRuntime().truthy, ":") &&
      Plain(" and I am ", obj, StringRuntime().truthy, ":") &&
      Plain(" years old", obj, StringRuntime().truthy, ":") &&
      Token("name", obj, StringRuntime().truthy, StringRuntime().toString, ":") &&
      Token("age", obj, StringRuntime().truthy, StringRuntime().toString, ":")
  {
  }

  lemma DocMultipleInput()
    ensures "my name is " + ":" + "name" + ":" + " and I am " + ":" + "age" + ":" + " years old"
         == "my name is :name: and I am :age: years old"
  {
  }

  lemma DocMultipleOutput()
    ensures "my name is " + "John" + " and I am " + "100" + " years old" == "my name is John and I am 100 years old"
  {
  }

  /** The person objects of the doc comment's transformer example. */
  datatype Person = Person(givenName: string, surName: string)

  /** Objects are always truthy and print as `[object Object]`. */
  function PersonRuntime(): Runtime<Person> {
    Runtime((p: Person) => true, (p: Person) => "[object Object]")
  }

  /** The doc comment's transformer: given name, a space, surname. */
  function FullName(p: Person): (r: string)
    ensures |r| == |p.givenName| + 1 + |p.surName|
  {
    p.givenName + " " + p.surName
  }

  /** The transformer example of the doc comment (src/replacement.ts:34-54, replacement.js:43-63). */
  lemma DocTransformerExample()
    ensures Replaced("First person - :person1:\nSecond person - :person2:",
                     map["person1" := Person("John", "Doe"), "person2" := Person("Jane", "Doeth")],
                     Some(ReplacementOptions(None, Some(FullName))), PersonRuntime())
         == "First person - John Doe\nSecond person - Jane Doeth"
  {
    DocTransformerSections();
    TwoTokens("First person - ", "person1", "\nSecond person - ", "person2", "",
              map["person1" := Person("John", "Doe"), "person2" := Person("Jane", "Doeth")],
              Some(ReplacementOptions(None, Some(FullName))), PersonRuntime(), ":");
    DocTransformerInput();
    DocTransformerOutput();
  }

  lemma DocTransformerSections()
    ensures var obj := map["person1" := Person("John", "Doe"), "person2" := Person("Jane", "Doeth")];
      Plain("First person - ", obj, PersonRuntime().truthy, ":") &&
      Plain("\nSecond person - ", obj, PersonRuntime().truthy, ":") &&
      Plain("", obj, PersonRuntime().truthy, ":") &&
      Token("person1", obj, PersonRuntime().truthy, FullName, ":") &&
      Token("person2", obj, PersonRuntime().truthy, FullName, ":")
  {
  }

  lemma DocTransformerInput()
    ensures "First person - " + ":" + "person1" + ":" + "\nSecond person - " + ":" + "person2" + ":" + ""
         == "First person - :person1:\nSecond person - :person2:"
  {
  }

  lemma DocTransformerOutput()
    ensures "First person - " + FullName(Person("John", "Doe")) + "\nSecond person - " + FullName(Person("Jane", "Doeth")) + ""
         == "First person - John Doe\nSecond person - Jane Doeth"
  {
  }

  /**
   * The custom separator example of the doc comment (src/replacement.ts:56-69,
   * replacement.js:65-78): the result is the one below, not the one the comment states.
   */
  lemma DocSeparatorExample()
    ensures Replaced("First person: <sep>person<sep>", map["person" := "John Doe"],
                     Some(ReplacementOptions(Some("<sep>"), None)), StringRuntime())
         == "First person: John Doe"
  {
    OneToken("First person: ", "person", "", map["person" := "John Doe"],
             Some(ReplacementOptions(Some("<sep>"), None)), StringRuntime(), "<sep>");
    DocSeparatorTexts();
  }

  lemma DocSeparatorTexts()
    ensures "First person: " + "<sep>" + "person" + "<sep>" + "" == "First person: <sep>person<sep>"
    ensures "First person: " + "John Doe" + "" == "First person: John Doe"
  {
  }

  /** Two neighbouring unchanged sections: src/replacement.ts puts the colon back, replacement.js drops it. */
  lemma ColonBetweenUnchanged()
    ensures Replaced("a:b", map[], None, StringRuntime()) == "a:b"
    ensures ReplacementJs.ReplaceTokens("a:b", map[], None, StringRuntime()) == "ab"
  {
    NoToken("a", "b", map[], None, StringRuntime(), ":");
    ColonBetweenUnchangedTexts();
  }

  lemma ColonBetweenUnchangedTexts()
    ensures "a" + ":" + "b" == "a:b"
    ensures "a" + "b" == "ab"
  {
  }

  /**
   * The glue of src/replacement.ts:107 is a colon whatever the separator:
   * with `_` as separator and nothing matched, `a_b` comes back as `a:b`,
   * while the intended reassembly gives the input back.
   */
  lemma CustomSeparatorNotRestored()
    ensures Replaced("a_b", map[], Some(ReplacementOptions(Some("_"), None)), StringRuntime()) == "a:b"
    ensures ReplacedIntended("a_b", map[], Some(ReplacementOptions(Some("_"), None)), StringRuntime()) == "a_b"
  {
    NoToken("a", "b", map[], Some(ReplacementOptions(Some("_"), None)), StringRuntime(), "_");
    CustomSeparatorNotRestoredTexts();
  }

  lemma CustomSeparatorNotRestoredTexts()
    ensures "a" + "_" + "b" == "a_b"
    ensures "a" + ":" + "b" == "a:b"
  {
  }
}
