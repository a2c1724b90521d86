/**
 * The JavaScript string and array builtins the core relies on:
 * `split` on a one-character separator, `Array.prototype.join`,
 * `toLowerCase`, `trim` and `replace` with a string pattern.
 */
module JsString {
  import opened Wrappers

  /** `parts.join(sep)`: the parts with `sep` between neighbours ("" for no parts). */
  function Join(parts: seq<string>, sep: string): string
    decreases |parts|
  {
    if |parts| == 0 then ""
    else if |parts| == 1 then parts[0]
    else parts[0] + sep + Join(parts[1..], sep)
  }

  /**
   * `s.split(sep)`: the maximal runs of characters other than `sep`, in
   * order. There is always at least one part; `""` splits into `[""]`.
   */
  function Split(s: string, sep: char): (parts: seq<string>)
    ensures |parts| >= 1
    ensures forall i | 0 <= i < |parts| :: sep !in parts[i]
    ensures Join(parts, [sep]) == s
    decreases |s|
  {
    if |s| == 0 then [""]
    else
      var tail := Split(s[1..], sep);
      if s[0] == sep then [""] + tail
      else [[s[0]] + tail[0]] + tail[1..]
  }

  /** Splitting is the inverse of joining parts that do not contain the separator. */
  lemma {:induction false} SplitJoin(parts: seq<string>, sep: char)
    requires |parts| >= 1
    requires forall i | 0 <= i < |parts| :: sep !in parts[i]
    ensures Split(Join(parts, [sep]), sep) == parts
    decreases |parts|, |parts[0]|
  {
    var s := Join(parts, [sep]);
    if |parts[0]| > 0 {
      var first, tail := parts[0], parts[1..];
      var rest := [first[1..]] + tail;
      assert parts == [first] + tail;
      RestAvoids(first, tail, sep);
      SplitJoin(rest, sep);
      JoinDropFirst(first, tail, [sep]);
      assert first[0] in first;
      SplitNonSeparator(s, sep, rest);
      assert [first[0]] + first[1..] == first;
    } else if |parts| > 1 {
      var tail := parts[1..];
      SplitJoin(tail, sep);
      assert parts == [""] + tail;
      JoinCons("", tail, [sep]);
      assert s == [sep] + Join(tail, [sep]);
      SplitSeparator(s, sep);
    }
  }

  /** The parts after dropping the first character still avoid the separator. */
  lemma RestAvoids(first: string, tail: seq<string>, sep: char)
    requires sep !in first && forall i | 0 <= i < |tail| :: sep !in tail[i]
    requires first != []
    ensures var rest := [first[1..]] + tail; forall i | 0 <= i < |rest| :: sep !in rest[i]
  {
    var rest := [first[1..]] + tail;
    forall i | 0 <= i < |rest| ensures sep !in rest[i] {
      if i > 0 { assert rest[i] == tail[i - 1]; }
    }
  }

  /** A text that starts with a character other than the separator: it joins the first part. */
  lemma SplitNonSeparator(s: string, sep: char, rest: seq<string>)
    requires |s| > 0 && s[0] != sep && Split(s[1..], sep) == rest
    ensures Split(s, sep) == [[s[0]] + rest[0]] + rest[1..]
  {
  }

  /** A text that starts with the separator: an empty first part, then the parts of the rest. */
  lemma SplitSeparator(s: string, sep: char)
    requires |s| > 0 && s[0] == sep
    ensures Split(s, sep) == [""] + Split(s[1..], sep)
  {
  }

  /** Joined parts whose first part is not empty start with that part's first character. */
  lemma JoinDropFirst(first: string, tail: seq<string>, sep: string)
    requires first != []
    ensures var s := Join([first] + tail, sep);
      |s| > 0 && s[0] == first[0] && s[1..] == Join([first[1..]] + tail, sep)
  {
    if tail == [] {
      JoinOne(first, sep);
      JoinOne(first[1..], sep);
    } else {
      var j := Join(tail, sep);
      JoinCons(first, tail, sep);
      JoinCons(first[1..], tail, sep);
      DropFirstOfConcat(first, sep + j);
    }
  }

  lemma JoinOne(x: string, sep: string)
    ensures Join([x], sep) == x
  {
  }

  lemma JoinCons(x: string, tail: seq<string>, sep: string)
    requires tail != []
    ensures Join([x] + tail, sep) == x + sep + Join(tail, sep)
  {
    assert ([x] + tail)[1..] == tail;
  }

  lemma DropFirstOfConcat(a: string, b: string)
    requires a != []
    ensures (a + b)[0] == a[0] && (a + b)[1..] == a[1..] + b
  {
  }

  /** The last part joins on after a separator. */
  lemma {:induction false} JoinLast(parts: seq<string>, sep: string)
    requires |parts| >= 2
    ensures Join(parts, sep) == Join(parts[..|parts| - 1], sep) + sep + parts[|parts| - 1]
    decreases |parts|
  {
    if |parts| > 2 {
      JoinLast(parts[1..], sep);
      assert parts[1..][..|parts| - 2] == parts[..|parts| - 1][1..];
    }
  }

  /** `p` is the text of `s` before its first `sep`, or all of `s` when there is none. */
  predicate IsFirstPart(p: string, s: string, sep: char) {
    |p| <= |s| && p == s[..|p|] && sep !in p && (|p| < |s| ==> s[|p|] == sep)
  }

  /** `p` is the text of `s` after its last `sep`, or all of `s` when there is none. */
  predicate IsLastPart(p: string, s: string, sep: char) {
    |p| <= |s| && p == s[|s| - |p|..] && sep !in p && (|p| < |s| ==> s[|s| - |p| - 1] == sep)
  }

  /** At most one text is the first part of `s`. */
  lemma FirstPartUnique(p: string, q: string, s: string, sep: char)
    requires IsFirstPart(p, s, sep) && IsFirstPart(q, s, sep)
    ensures p == q
  {
  }

  /** At most one text is the last part of `s`. */
  lemma LastPartUnique(p: string, q: string, s: string, sep: char)
    requires IsLastPart(p, s, sep) && IsLastPart(q, s, sep)
    ensures p == q
  {
  }

  /** `s.split(sep)[0]`. */
  function FirstPart(s: string, sep: char): (p: string)
    ensures IsFirstPart(p, s, sep)
  {
    var parts := Split(s, sep);
    assert |parts| > 1 ==> Join(parts, [sep]) == parts[0] + [sep] + Join(parts[1..], [sep]);
    parts[0]
  }

  /** `s.split(sep).pop()`. */
  function LastPart(s: string, sep: char): (p: string)
    ensures IsLastPart(p, s, sep)
  {
    var parts := Split(s, sep);
    assert |parts| > 1 ==> Join(parts, [sep]) == Join(parts[..|parts| - 1], [sep]) + [sep] + parts[|parts| - 1] by {
      if |parts| > 1 { JoinLast(parts, [sep]); }
    }
    parts[|parts| - 1]
  }

  /** The part after the last separator is what follows a separator when no separator comes later. */
  lemma LastPartAfter(a: string, b: string, sep: char)
    requires sep !in b
    ensures LastPart(a + [sep] + b, sep) == b
  {
    var s := a + [sep] + b;
    assert s[|s| - |b|..] == b;
    assert s[|s| - |b| - 1] == sep;
    LastPartUnique(LastPart(s, sep), b, s, sep);
  }

  /** The part before the first separator is what precedes a separator when none comes earlier. */
  lemma FirstPartBefore(a: string, b: string, sep: char)
    requires sep !in a
    ensures FirstPart(a + [sep] + b, sep) == a
  {
    var s := a + [sep] + b;
    assert s[..|a|] == a;
    assert s[|a|] == sep;
    FirstPartUnique(FirstPart(s, sep), a, s, sep);
  }

  /** `toLowerCase` on one character, for the ASCII letters. */
  function LowerChar(c: char): char {
    if 'A' <= c <= 'Z' then (c as int - 'A' as int + 'a' as int) as char else c
  }

  /** `s.toLowerCase()`, character by character. */
  function ToLower(s: string): (r: string)
    ensures |r| == |s|
  {
    seq(|s|, i requires 0 <= i < |s| => LowerChar(s[i]))
  }

  /** Text without upper-case ASCII letters is its own lower-case form. */
  lemma LowerUnchanged(s: string)
    requires forall i | 0 <= i < |s| :: !('A' <= s[i] <= 'Z')
    ensures ToLower(s) == s
  {
  }

  /** The characters `trim` removes: WhiteSpace and LineTerminator of ECMAScript. */
  predicate IsWhiteSpace(c: char) {
    var n := c as int;
    n == 0x09 || n == 0x0B || n == 0x0C || n == 0x20 || n == 0xA0 || n == 0xFEFF
    || n == 0x1680 || (0x2000 <= n <= 0x200A) || n == 0x202F || n == 0x205F || n == 0x3000
    || n == 0x0A || n == 0x0D || n == 0x2028 || n == 0x2029
  }

  function TrimStart(s: string): (r: string)
    ensures |r| <= |s| && r == s[|s| - |r|..]
    ensures forall k | 0 <= k < |s| - |r| :: IsWhiteSpace(s[k])
    ensures r == [] || !IsWhiteSpace(r[0])
    decreases |s|
  {
    if |s| > 0 && IsWhiteSpace(s[0]) then TrimStart(s[1..]) else s
  }

  function TrimEnd(s: string): (r: string)
    ensures |r| <= |s| && r == s[..|r|]
    ensures forall k | |r| <= k < |s| :: IsWhiteSpace(s[k])
    ensures r == [] || !IsWhiteSpace(r[|r| - 1])
    decreases |s|
  {
    if |s| > 0 && IsWhiteSpace(s[|s| - 1]) then TrimEnd(s[..|s| - 1]) else s
  }

  /** `s.trim()`. */
  function Trim(s: string): string {
    TrimEnd(TrimStart(s))
  }

  /** `s` is white space, then `r` from index `i`, then white space. */
  predicate Padded(s: string, i: int, r: string) {
    && 0 <= i <= |s| - |r| && s[i..i + |r|] == r
    && (forall k | 0 <= k < i :: IsWhiteSpace(s[k]))
    && (forall k | i + |r| <= k < |s| :: IsWhiteSpace(s[k]))
  }

  /** `trim` cuts `s` into white space, the result, and white space. */
  lemma TrimShape(s: string)
    ensures Padded(s, |s| - |TrimStart(s)|, Trim(s))
  {
    var t := TrimStart(s);
    var r := TrimEnd(t);
    assert Trim(s) == r;
    PrefixOfSuffix(s, t, r);
  }

  /** A prefix `r` of a suffix `t` of `s`: white space before `t` and after `r` in `t` pads `r` in `s`. */
  lemma PrefixOfSuffix(s: string, t: string, r: string)
    requires |t| <= |s| && t == s[|s| - |t|..]
    requires forall k | 0 <= k < |s| - |t| :: IsWhiteSpace(s[k])
    requires |r| <= |t| && r == t[..|r|]
    requires forall k | |r| <= k < |t| :: IsWhiteSpace(t[k])
    ensures Padded(s, |s| - |t|, r)
  {
    var i := |s| - |t|;
    forall k | i + |r| <= k < |s| ensures IsWhiteSpace(s[k]) {
      assert s[k] == t[k - i];
    }
  }

  /** The result of `trim` neither starts nor ends with white space. */
  lemma TrimEnds(s: string)
    ensures var r := Trim(s); r == [] || (!IsWhiteSpace(r[0]) && !IsWhiteSpace(r[|r| - 1]))
  {
    var t := TrimStart(s);
    var r := TrimEnd(t);
    assert r != [] ==> r[0] == t[0];
  }

  /** Text that neither starts nor ends with white space survives `trim`, with any trailing white space dropped. */
  lemma {:induction false} TrimTrailing(s: string, w: string)
    requires s != [] && !IsWhiteSpace(s[0]) && !IsWhiteSpace(s[|s| - 1])
    requires forall k | 0 <= k < |w| :: IsWhiteSpace(w[k])
    ensures Trim(s + w) == s
    decreases |w|
  {
    if |w| > 0 {
      var w' := w[..|w| - 1];
      TrimTrailing(s, w');
      assert (s + w)[..|s + w| - 1] == s + w';
    } else {
      assert s + w == s;
    }
  }

  /** `s.startsWith(t)`. */
  predicate StartsWith(s: string, t: string) {
    |t| <= |s| && s[..|t|] == t
  }

  /** `s.endsWith(t)`. */
  predicate EndsWith(s: string, t: string) {
    |t| <= |s| && s[|s| - |t|..] == t
  }

  /** `s` holds `pat` starting at index `k`. */
  predicate OccursAt(s: string, pat: string, k: nat) {
    k + |pat| <= |s| && s[k..k + |pat|] == pat
  }

  lemma OccursAtTail(s: string, pat: string)
    requires |s| > 0
    ensures forall k | 1 <= k <= |s| :: OccursAt(s, pat, k) == OccursAt(s[1..], pat, k - 1)
  {
    forall k | 1 <= k <= |s| ensures OccursAt(s, pat, k) == OccursAt(s[1..], pat, k - 1) {
      if k + |pat| <= |s| {
        assert s[1..][k - 1..k - 1 + |pat|] == s[k..k + |pat|];
      }
    }
  }

  /** `s.indexOf(pat)`: the first index at which `pat` occurs, None for -1. */
  function IndexOf(s: string, pat: string): (r: Option<nat>)
    ensures r.Some? ==> OccursAt(s, pat, r.value)
    ensures r.Some? ==> forall k | 0 <= k < r.value :: !OccursAt(s, pat, k)
    ensures r.None? ==> forall k | 0 <= k <= |s| :: !OccursAt(s, pat, k)
    decreases |s|
  {
    if |pat| > |s| then None
    else if s[0..|pat|] == pat then Some(0)
    else
      OccursAtTail(s, pat);
      match IndexOf(s[1..], pat)
      case None => None
      case Some(k) => Some(k + 1)
  }

  /** `s.replace(pat, rep)` with a string pattern: only the first occurrence is replaced. */
  function ReplaceFirst(s: string, pat: string, rep: string): string {
    match IndexOf(s, pat)
    case None => s
    case Some(i) => s[..i] + rep + s[i + |pat|..]
  }

  /** Only the first occurrence is replaced: text before it is kept, and so is everything after it. */
  lemma ReplaceFirstAt(a: string, pat: string, b: string, rep: string)
    requires forall k | 0 <= k < |a| :: !OccursAt(a + pat + b, pat, k)
    ensures ReplaceFirst(a + pat + b, pat, rep) == a + rep + b
  {
    var s := a + pat + b;
    assert OccursAt(s, pat, |a|) by {
      assert s[|a|..|a| + |pat|] == pat;
    }
    var i := IndexOf(s, pat).value;
    assert i == |a|;
    assert s[..i] == a;
    assert s[i + |pat|..] == b;
  }

  /** Text without the pattern is left as it is. */
  lemma ReplaceFirstAbsent(s: string, pat: string, rep: string)
    requires forall k | 0 <= k <= |s| :: !OccursAt(s, pat, k)
    ensures ReplaceFirst(s, pat, rep) == s
  {
  }
}
