/**
 * The JavaScript string built-ins the token replacer relies on, as used by
 * src/replacement.ts:94 and replacement.js:95-99:
 *   - `String.prototype.split(sep)` for a non-empty separator, which cuts the
 *     string at the leftmost non-overlapping occurrences of `sep`;
 *   - `Array.prototype.join(glue)`.
 * `ReplaceAll` is an independent left-to-right reference definition used to
 * say what splitting and re-joining does to a string.
 */
module JsText {

  /** `sep` occurs in `s` starting at index `k`. */
  predicate MatchAt(s: string, k: int, sep: string) {
    0 <= k && k + |sep| <= |s| && s[k..k + |sep|] == sep
  }

  /** No occurrence of `sep` in `s` starts before index `n`. */
  ghost predicate NoMatchBefore(s: string, n: int, sep: string) {
    forall k :: 0 <= k < n ==> !MatchAt(s, k, sep)
  }

  /** `Array.prototype.join`: the parts with `glue` between neighbours. */
  function Join(parts: seq<string>, glue: string): string {
    if |parts| == 0 then ""
    else if |parts| == 1 then parts[0]
    else parts[0] + glue + Join(parts[1..], glue)
  }

  /** Total length of a sequence of strings. */
  function SumLen(parts: seq<string>): nat {
    if |parts| == 0 then 0 else SumLen(parts[..|parts| - 1]) + |parts[|parts| - 1]|
  }

  /**
   * `String.prototype.split` with a non-empty separator. Joining the parts
   * back with the separator gives the input again, so no character is lost.
   */
  function Split(s: string, sep: string): (parts: seq<string>)
    requires |sep| > 0
    ensures |parts| >= 1
    ensures Join(parts, sep) == s
    decreases |s|
  {
    if MatchAt(s, 0, sep) then
      var rest := Split(s[|sep|..], sep);
      assert ([""] + rest)[1..] == rest;
      assert s == sep + s[|sep|..];
      [""] + rest
    else if |s| == 0 then [""]
    else
      var rest := Split(s[1..], sep);
      JoinExtendFirst(rest, [s[0]], sep);
      assert s == [s[0]] + s[1..];
      [[s[0]] + rest[0]] + rest[1..]
  }

  /** Replaces every leftmost non-overlapping occurrence of `sep` in `s` by `glue`. */
  function ReplaceAll(s: string, sep: string, glue: string): string
    requires |sep| > 0
    decreases |s|
  {
    if MatchAt(s, 0, sep) then glue + ReplaceAll(s[|sep|..], sep, glue)
    else if |s| == 0 then ""
    else [s[0]] + ReplaceAll(s[1..], sep, glue)
  }

  /** Prefixing the first part prefixes the joined string. */
  lemma {:induction false} JoinExtendFirst(parts: seq<string>, c: string, glue: string)
    requires |parts| >= 1
    ensures Join([c + parts[0]] + parts[1..], glue) == c + Join(parts, glue)
  {
    var ext := [c + parts[0]] + parts[1..];
    if |parts| > 1 {
      assert ext[1..] == parts[1..];
    }
  }

  /** Appending a part: the glue goes between the old last part and the new one. */
  lemma {:induction false} JoinSnoc(parts: seq<string>, p: string, glue: string)
    ensures Join(parts + [p], glue) == Join(parts, glue) + (if |parts| > 0 then glue else "") + p
    decreases |parts|
  {
    if |parts| == 0 {
      assert parts + [p] == [p];
    } else if |parts| == 1 {
      assert (parts + [p])[1..] == [p];
    } else {
      assert (parts + [p])[1..] == parts[1..] + [p];
      JoinSnoc(parts[1..], p, glue);
    }
  }

  /** Without glue, appending a part appends its text. */
  lemma JoinEmptySnoc(parts: seq<string>, p: string)
    ensures Join(parts + [p], "") == Join(parts, "") + p
  {
    JoinSnoc(parts, p, "");
    assert Join(parts, "") + "" == Join(parts, "");
  }

  /** Without glue, joining distributes over concatenation. */
  lemma {:induction false} JoinAppend(a: seq<string>, b: seq<string>)
    ensures Join(a + b, "") == Join(a, "") + Join(b, "")
    decreases |a|
  {
    if |a| == 0 {
      assert a + b == b;
    } else if |a| == 1 {
      if |b| > 0 {
        assert (a + b)[1..] == b;
      }
    } else {
      assert (a + b)[1..] == a[1..] + b;
      JoinAppend(a[1..], b);
    }
  }

  /** Without glue, the text of the part at `i` sits between the text before it and the text after it. */
  lemma JoinAround(parts: seq<string>, i: int)
    requires 0 <= i < |parts|
    ensures Join(parts, "") == Join(parts[..i], "") + (parts[i] + Join(parts[i + 1..], ""))
  {
    var before, after := parts[..i], parts[i + 1..];
    assert parts == before + parts[i..];
    assert parts[i..] == [parts[i]] + after;
    JoinAppend(before, [parts[i]] + after);
    JoinAppend([parts[i]], after);
    assert Join([parts[i]], "") == parts[i];
  }

  /** Joining without glue keeps exactly the characters of the parts. */
  lemma {:induction false} JoinEmptyLength(parts: seq<string>)
    ensures |Join(parts, "")| == SumLen(parts)
    decreases |parts|
  {
    if |parts| > 0 {
      var n := |parts| - 1;
      assert parts == parts[..n] + [parts[n]];
      JoinSnoc(parts[..n], parts[n], "");
      JoinEmptyLength(parts[..n]);
    }
  }

  /**
   * Splitting and re-joining with any glue replaces each separator
   * occurrence the split consumed by that glue.
   */
  lemma {:induction false} JoinSplit(s: string, sep: string, glue: string)
    requires |sep| > 0
    ensures Join(Split(s, sep), glue) == ReplaceAll(s, sep, glue)
    decreases |s|
  {
    if MatchAt(s, 0, sep) {
      JoinSplit(s[|sep|..], sep, glue);
      JoinSplitAtMatch(s, sep, glue);
    } else if |s| > 0 {
      JoinSplit(s[1..], sep, glue);
      JoinSplitAtChar(s, sep, glue);
    }
  }

  /** One step of JoinSplit where the text starts with the separator. */
  lemma JoinSplitAtMatch(s: string, sep: string, glue: string)
    requires |sep| > 0 && MatchAt(s, 0, sep)
    requires Join(Split(s[|sep|..], sep), glue) == ReplaceAll(s[|sep|..], sep, glue)
    ensures Join(Split(s, sep), glue) == ReplaceAll(s, sep, glue)
  {
    var rest := Split(s[|sep|..], sep);
    assert ([""] + rest)[1..] == rest;
  }

  /** One step of JoinSplit where the text starts with an ordinary character. */
  lemma JoinSplitAtChar(s: string, sep: string, glue: string)
    requires |sep| > 0 && !MatchAt(s, 0, sep) && |s| > 0
    requires Join(Split(s[1..], sep), glue) == ReplaceAll(s[1..], sep, glue)
    ensures Join(Split(s, sep), glue) == ReplaceAll(s, sep, glue)
  {
    JoinExtendFirst(Split(s[1..], sep), [s[0]], glue);
  }

  /**
   * Parts that a leftmost split produces: inside every part (and, for all but
   * the last part, across the separator that follows it) no occurrence of
   * `sep` starts before the part ends.
   */
  ghost predicate Leftmost(parts: seq<string>, sep: string)
    requires |parts| >= 1
  {
    (forall i :: 0 <= i < |parts| - 1 ==> NoMatchBefore(parts[i] + sep, |parts[i]|, sep)) &&
    NoMatchBefore(parts[|parts| - 1], |parts[|parts| - 1]|, sep)
  }

  /** `String.prototype.split` cuts at the leftmost occurrences of the separator. */
  lemma {:induction false} SplitLeftmost(s: string, sep: string)
    requires |sep| > 0
    ensures Leftmost(Split(s, sep), sep)
    decreases |s|
  {
    if MatchAt(s, 0, sep) {
      SplitLeftmost(s[|sep|..], sep);
      LeftmostEmptyFirst(Split(s[|sep|..], sep), sep);
    } else if |s| > 0 {
      var rest := Split(s[1..], sep);
      SplitLeftmost(s[1..], sep);
      LeftmostExtendFirst(rest, s[0], sep, s);
    }
  }

  lemma LeftmostEmptyFirst(rest: seq<string>, sep: string)
    requires |rest| >= 1 && Leftmost(rest, sep)
    ensures Leftmost([""] + rest, sep)
  {
    var parts := [""] + rest;
    forall i | 0 <= i < |parts| - 1
      ensures NoMatchBefore(parts[i] + sep, |parts[i]|, sep)
    {
      if i > 0 {
        assert parts[i] == rest[i - 1];
      }
    }
  }

  lemma LeftmostExtendFirst(rest: seq<string>, c: char, sep: string, s: string)
    requires |sep| > 0 && |rest| >= 1 && Leftmost(rest, sep)
    requires s == [c] + Join(rest, sep) && !MatchAt(s, 0, sep)
    ensures Leftmost([[c] + rest[0]] + rest[1..], sep)
  {
    if |rest| > 1 {
      var tail := Join(rest[1..], sep);
      assert s == [c] + (rest[0] + sep) + tail;
      assert NoMatchBefore(rest[0] + sep, |rest[0]|, sep);
      FirstPartStillFree(rest[0] + sep, c, sep, tail, |rest[0]|);
      assert [c] + (rest[0] + sep) == ([c] + rest[0]) + sep;
      LeftmostReplaceFirst(rest, [c] + rest[0], sep);
    } else {
      assert s == [c] + rest[0] + "";
      FirstPartStillFree(rest[0], c, sep, "", |rest[0]|);
    }
  }

  lemma LeftmostReplaceFirst(rest: seq<string>, first: string, sep: string)
    requires |rest| > 1 && Leftmost(rest, sep)
    requires NoMatchBefore(first + sep, |first|, sep)
    ensures Leftmost([first] + rest[1..], sep)
  {
    var parts := [first] + rest[1..];
    forall i | 0 <= i < |parts| - 1
      ensures NoMatchBefore(parts[i] + sep, |parts[i]|, sep)
    {
      if i > 0 {
        assert parts[i] == rest[i];
      }
    }
    assert parts[|parts| - 1] == rest[|rest| - 1];
  }

  /** Putting `c` in front of a text free of `sep` before `n` leaves it free before `n + 1`, unless `sep` starts the result. */
  lemma FirstPartStillFree(t: string, c: char, sep: string, tail: string, n: nat)
    requires |sep| > 0 && n <= |t|
    requires NoMatchBefore(t, n, sep)
    requires !MatchAt([c] + t + tail, 0, sep)
    ensures NoMatchBefore([c] + t, n + 1, sep)
  {
    var u := [c] + t;
    forall k | 0 <= k < n + 1
      ensures !MatchAt(u, k, sep)
    {
      if k > 0 && MatchAt(u, k, sep) {
        assert u[k..k + |sep|] == t[k - 1..k - 1 + |sep|];
        assert MatchAt(t, k - 1, sep);
      }
    }
  }

  /** A string in which the separator does not occur splits into itself alone. */
  lemma {:induction false} SplitWithoutSeparator(s: string, sep: string)
    requires |sep| > 0
    requires NoMatchBefore(s, |s|, sep)
    ensures Split(s, sep) == [s]
    decreases |s|
  {
    if |s| > 0 {
      assert !MatchAt(s, 0, sep);
      forall k | 0 <= k < |s| - 1
        ensures !MatchAt(s[1..], k, sep)
      {
        if MatchAt(s[1..], k, sep) {
          assert s[1..][k..k + |sep|] == s[k + 1..k + 1 + |sep|];
          assert MatchAt(s, k + 1, sep);
        }
      }
      SplitWithoutSeparator(s[1..], sep);
    }
  }

  /**
   * A first part free of the separator is cut off at the separator that
   * follows it; this is how concrete inputs are split part by part.
   */
  lemma {:induction false} SplitFirstPart(a: string, sep: string, b: string)
    requires |sep| > 0
    requires NoMatchBefore(a + sep, |a|, sep)
    ensures Split(a + sep + b, sep) == [a] + Split(b, sep)
    decreases |a|
  {
    var s := a + sep + b;
    if |a| == 0 {
      assert s == sep + b;
      assert MatchAt(s, 0, sep);
      assert s[|sep|..] == b;
    } else {
      assert !MatchAt(a + sep, 0, sep);
      assert (a + sep)[0..|sep|] == s[0..|sep|];
      assert !MatchAt(s, 0, sep);
      var a' := a[1..];
      forall k | 0 <= k < |a'|
        ensures !MatchAt(a' + sep, k, sep)
      {
        assert (a' + sep)[k..k + |sep|] == (a + sep)[k + 1..k + 1 + |sep|];
        assert !MatchAt(a + sep, k + 1, sep);
      }
      assert s[1..] == a' + sep + b;
      SplitFirstPart(a', sep, b);
      assert [s[0]] + a' == a;
    }
  }

  /**
   * The converse round trip: parts cut at leftmost occurrences come back from
   * splitting their join. With SplitLeftmost this makes `Split(s, sep)` the
   * only leftmost sequence of parts that joins to `s`.
   */
  lemma {:induction false} SplitJoin(parts: seq<string>, sep: string)
    requires |sep| > 0 && |parts| >= 1 && Leftmost(parts, sep)
    ensures Split(Join(parts, sep), sep) == parts
    decreases |parts|
  {
    if |parts| == 1 {
      SplitWithoutSeparator(parts[0], sep);
    } else {
      var rest := parts[1..];
      forall i | 0 <= i < |rest| - 1
        ensures NoMatchBefore(rest[i] + sep, |rest[i]|, sep)
      {
        assert rest[i] == parts[i + 1];
      }
      assert rest[|rest| - 1] == parts[|parts| - 1];
      SplitJoin(rest, sep);
      assert NoMatchBefore(parts[0] + sep, |parts[0]|, sep);
      SplitFirstPart(parts[0], sep, Join(rest, sep));
      assert [parts[0]] + rest == parts;
    }
  }

  /** When the separator's first character is absent from `a`, no occurrence starts in `a`. */
  lemma NoMatchInPrefix(a: string, sep: string, rest: string)
    requires |sep| > 0 && sep[0] !in a
    ensures NoMatchBefore(a + rest, |a|, sep)
  {
  }
}
