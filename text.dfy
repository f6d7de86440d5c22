/**
  The operations on Python `str` that the script calls: `strip()`,
  `split(sep)`, `startswith` and `endswith`, with `IsSpace` for the
  characters `strip()` removes and `IndexOf` as a helper for cutting a line
  at its separators. Strings are restricted to sequences of Unicode scalar
  values; a Python `str` may also hold lone surrogates, but the lines the
  script reads come from a strict decode and cannot.
 */
module Text {

  /** The characters for which Python's `str.isspace()` holds, which are
      exactly the characters `str.strip()` with no argument removes. */
  predicate IsSpace(c: char)
  {
    ('\t' <= c <= '\r') || ('\U{1C}' <= c <= ' ') || c == '\U{85}' || c == '\U{A0}'
    || c == '\U{1680}' || ('\U{2000}' <= c <= '\U{200A}') || c == '\U{2028}' || c == '\U{2029}'
    || c == '\U{202F}' || c == '\U{205F}' || c == '\U{3000}'
  }

  /** Every character of `s` is whitespace. */
  ghost predicate IsBlank(s: string)
  {
    forall k :: 0 <= k < |s| ==> IsSpace(s[k])
  }

  /** The index of the first non-whitespace character of `s` at or after
      `i`, or `|s|`: where `strip()` starts keeping characters. */
  function SkipSpaces(s: string, i: nat): (a: nat)
    requires i <= |s|
    ensures i <= a <= |s|
    ensures a < |s| ==> !IsSpace(s[a])
    decreases |s| - i
  {
    if i < |s| && IsSpace(s[i]) then SkipSpaces(s, i + 1) else i
  }

  /** The end of `s[a..j]` once its trailing whitespace is dropped: where
      `strip()` stops keeping characters. */
  function TrimEnd(s: string, a: nat, j: nat): (b: nat)
    requires a <= j <= |s|
    ensures a <= b <= j
    ensures a < b ==> !IsSpace(s[b - 1])
    decreases j
  {
    if a < j && IsSpace(s[j - 1]) then TrimEnd(s, a, j - 1) else j
  }

  /** `s.strip()`: `s` without its leading and trailing whitespace. The
      result is no longer than `s` and has no whitespace left at either end;
      `StripSlice` shows that only whitespace was cut. */
  function Strip(s: string): (r: string)
    ensures |r| <= |s|
    ensures Stripped(r)
  {
    var a := SkipSpaces(s, 0);
    var b := TrimEnd(s, a, |s|);
    assert a < b ==> s[a..b][0] == s[a] && s[a..b][b - a - 1] == s[b - 1];
    s[a..b]
  }

  lemma {:induction false} SkippedAreSpaces(s: string, i: nat, k: nat)
    requires i <= k < |s| && k < SkipSpaces(s, i)
    ensures IsSpace(s[k])
    decreases |s| - i
  {
    if i < k {
      SkippedAreSpaces(s, i + 1, k);
    }
  }

  lemma {:induction false} TrimmedAreSpaces(s: string, a: nat, j: nat, k: nat)
    requires a <= j <= |s| && TrimEnd(s, a, j) <= k < j
    ensures IsSpace(s[k])
    decreases j
  {
    if k < j - 1 {
      TrimmedAreSpaces(s, a, j - 1, k);
    }
  }

  /** `strip()` removes whitespace only: what it returns is the middle
      `s[a..b]` of `s`, and every character before `a` and from `b` on is
      whitespace. */
  lemma StripSlice(s: string)
    ensures var a := SkipSpaces(s, 0);
      Strip(s) == s[a..TrimEnd(s, a, |s|)]
    ensures forall k :: 0 <= k < SkipSpaces(s, 0) ==> IsSpace(s[k])
    ensures forall k :: TrimEnd(s, SkipSpaces(s, 0), |s|) <= k < |s| ==> IsSpace(s[k])
  {
    var a := SkipSpaces(s, 0);
    forall k | 0 <= k < a ensures IsSpace(s[k]) {
      SkippedAreSpaces(s, 0, k);
    }
    forall k | TrimEnd(s, a, |s|) <= k < |s| ensures IsSpace(s[k]) {
      TrimmedAreSpaces(s, a, |s|, k);
    }
  }

  /** `strip()` returns the empty string exactly when `s` is blank. */
  lemma StripEmptyIffBlank(s: string)
    ensures Strip(s) == [] <==> IsBlank(s)
  {
    StripSlice(s);
  }

  /** Whatever `strip()` keeps was in `s`. */
  lemma StripKeeps(s: string, c: char)
    requires c in Strip(s)
    ensures c in s
  {
    var a := SkipSpaces(s, 0);
    var r := Strip(s);
    var k :| 0 <= k < |r| && r[k] == c;
    assert s[a + k] == c;
  }

  /** `s` has nothing for `strip()` to remove: it neither starts nor ends
      with whitespace. */
  predicate Stripped(s: string)
  {
    s != [] ==> !IsSpace(s[0]) && !IsSpace(s[|s| - 1])
  }

  /** Stripping a stripped string changes nothing; as `strip()` returns a
      stripped string, stripping twice is stripping once. */
  lemma StrippedFixed(s: string)
    requires Stripped(s)
    ensures Strip(s) == s
  {
    if s != [] {
      assert SkipSpaces(s, 0) == 0 && TrimEnd(s, 0, |s|) == |s|;
      assert s[0..|s|] == s;
    }
  }

  /** `s.startswith(prefix)`: `s` begins with every character of `prefix`,
      in order. */
  function StartsWith(s: string, prefix: string): (b: bool)
    ensures b <==> |prefix| <= |s| && forall k :: 0 <= k < |prefix| ==> s[k] == prefix[k]
  {
    |prefix| <= |s| && s[..|prefix|] == prefix
  }

  /** `s.endswith(suffix)`: the last `|suffix|` characters of `s` are those
      of `suffix`, in order. */
  function EndsWith(s: string, suffix: string): (b: bool)
    ensures b <==> |suffix| <= |s| && forall k :: 0 <= k < |suffix| ==> s[|s| - |suffix| + k] == suffix[k]
  {
    |suffix| <= |s| && s[|s| - |suffix|..] == suffix
  }

  /** Where the first `c` of `s` at or after `from` is, or `|s|` when there
      is none: the end of the piece `split` cuts off from `from`. */
  function IndexOf(s: string, c: char, from: nat := 0): (i: nat)
    requires from <= |s|
    ensures from <= i <= |s|
    ensures i < |s| ==> s[i] == c
    decreases |s| - from
  {
    if from == |s| || s[from] == c then from else IndexOf(s, c, from + 1)
  }

  /** `IndexOf` finds the first `c`: there is none between `from` and it. */
  lemma {:induction false} IndexOfFirst(s: string, c: char, from: nat)
    requires from <= |s|
    ensures c !in s[from..IndexOf(s, c, from)]
    decreases |s| - from
  {
    if from < |s| && s[from] != c {
      IndexOfFirst(s, c, from + 1);
      assert s[from..IndexOf(s, c, from)] == [s[from]] + s[from + 1..IndexOf(s, c, from)];
    }
  }

  /** Python's `sep.join(parts)`. */
  function Join(parts: seq<string>, sep: char): string
    requires |parts| >= 1
  {
    if |parts| == 1 then parts[0] else parts[0] + [sep] + Join(parts[1..], sep)
  }

  /** Python's `s.split(sep)` with a one-character separator: never an empty
      list, no piece holds the separator, and joining the pieces back with the
      separator gives `s` again. */
  function Split(s: string, sep: char): (r: seq<string>)
    ensures |r| >= 1
    ensures forall k :: 0 <= k < |r| ==> sep !in r[k]
    ensures Join(r, sep) == s
  {
    if s == [] then [""]
    else
      var rest := Split(s[1..], sep);
      if s[0] == sep then
        assert Join([""] + rest, sep) == [sep] + Join(rest, sep);
        [""] + rest
      else
        JoinConsFirst(rest, sep, s[0]);
        [[s[0]] + rest[0]] + rest[1..]
  }

  /** Putting a character in front of the first piece puts it in front of the
      joined string. */
  lemma {:induction false} JoinConsFirst(parts: seq<string>, sep: char, c: char)
    requires |parts| >= 1
    ensures Join([[c] + parts[0]] + parts[1..], sep) == [c] + Join(parts, sep)
  {
    var ps := [[c] + parts[0]] + parts[1..];
    if |parts| > 1 {
      assert ps[1..] == parts[1..];
    }
  }

  /** Splitting is the inverse of joining pieces that hold no separator. */
  lemma {:induction false} SplitJoin(parts: seq<string>, sep: char)
    requires |parts| >= 1
    requires forall k :: 0 <= k < |parts| ==> sep !in parts[k]
    ensures Split(Join(parts, sep), sep) == parts
    decreases |parts|, |parts[0]|
  {
    if |parts| == 1 {
      SplitNoSep(parts[0], sep);
    } else if parts[0] == [] {
      var tail := Join(parts[1..], sep);
      assert Join(parts, sep) == [sep] + tail;
      SplitJoin(parts[1..], sep);
      assert [""] + parts[1..] == parts;
    } else {
      var first := parts[0];
      var shorter := [first[1..]] + parts[1..];
      assert shorter[1..] == parts[1..];
      assert sep !in first[1..] by { assert forall c :: c in first[1..] ==> c in first; }
      SplitJoin(shorter, sep);
      JoinConsFirst(shorter, sep, first[0]);
      assert [first[0]] + first[1..] == first;
      assert [[first[0]] + shorter[0]] + shorter[1..] == parts;
      assert Join(parts, sep)[1..] == Join(shorter, sep);
    }
  }

  /** A string without the separator splits into itself alone. */
  lemma {:induction false} SplitNoSep(s: string, sep: char)
    requires sep !in s
    ensures Split(s, sep) == [s]
  {
    if s != [] {
      assert sep !in s[1..] by { assert forall c :: c in s[1..] ==> c in s; }
      SplitNoSep(s[1..], sep);
    }
  }

  /** Splitting cuts at the first separator: the text before it is the first
      piece, and the text after it splits into the remaining pieces. */
  lemma SplitAtFirst(s: string, sep: char, from: nat)
    requires from <= |s|
    ensures var i := IndexOf(s, sep, from);
      Split(s[from..], sep) == [s[from..i]] + (if i == |s| then [] else Split(s[i + 1..], sep))
  {
    var i := IndexOf(s, sep, from);
    var t := s[from..];
    if i == |s| {
      assert t == s[from..i];
      IndexOfFirst(s, sep, from);
      SplitNoSep(t, sep);
      assert Split(t, sep) == [s[from..i]];
    } else {
      var rest := Split(s[i + 1..], sep);
      var parts := [s[from..i]] + rest;
      assert parts[1..] == rest;
      assert Join(parts, sep) == s[from..i] + [sep] + Join(rest, sep);
      assert t == s[from..i] + [sep] + s[i + 1..];
      IndexOfFirst(s, sep, from);
      assert Join(parts, sep) == t;
      SplitJoin(parts, sep);
      assert Split(t, sep) == parts;
    }
  }
}
