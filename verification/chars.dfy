/** Character classes and the small string operations the scripts lean on
    (`trim`/`strip`, `startsWith`, `indexOf`, `replace` with a string pattern,
    `toLowerCase`, UTF-16 `length`). Strings are `seq<char>`. */
module Chars {
  import opened Wrappers

  // ---------------------------------------------------------------------------
  // Character classes
  // ---------------------------------------------------------------------------

  /** JavaScript `\s` and the set `String.prototype.trim` removes:
      WhiteSpace plus LineTerminator of ECMAScript, by code point. */
  predicate IsJsSpace(c: char) {
    var n := c as int;
    (9 <= n <= 13) || n == 0x20 || n == 0xA0 || n == 0x1680 || (0x2000 <= n <= 0x200A)
    || n == 0x2028 || n == 0x2029 || n == 0x202F || n == 0x205F || n == 0x3000 || n == 0xFEFF
  }

  /** JavaScript LineTerminator: the characters `.` does not match. */
  predicate IsJsLineTerminator(c: char) {
    var n := c as int;
    n == 0x0A || n == 0x0D || n == 0x2028 || n == 0x2029
  }

  /** Python `str.isspace()`: what `str.strip()` removes and what `\s` matches in a `str` pattern. */
  predicate IsPySpace(c: char) {
    var n := c as int;
    (9 <= n <= 13) || (0x1C <= n <= 0x20) || n == 0x85 || n == 0xA0 || n == 0x1680
    || (0x2000 <= n <= 0x200A) || n == 0x2028 || n == 0x2029 || n == 0x202F || n == 0x205F
    || n == 0x3000
  }

  predicate NotLineTerminator(c: char) { !IsJsLineTerminator(c) }

  predicate IsAsciiUpper(c: char) { 'A' <= c <= 'Z' }
  predicate IsAsciiLowerAlnum(c: char) { ('a' <= c <= 'z') || ('0' <= c <= '9') }
  predicate IsAsciiAlnum(c: char) { IsAsciiLowerAlnum(c) || IsAsciiUpper(c) }

  /** Python `\w`, restricted to ASCII: letters, digits and underscore. */
  predicate IsWordChar(c: char) { IsAsciiAlnum(c) || c == '_' }

  /** `toLowerCase()` / `lower()` on one character, ASCII letters only. */
  function LowerChar(c: char): (r: char)
    ensures IsAsciiUpper(c) ==> IsAsciiLowerAlnum(r) && 'a' <= r <= 'z'
    ensures !IsAsciiUpper(c) ==> r == c
    ensures !IsAsciiUpper(r)
  {
    if IsAsciiUpper(c) then (c as int + 32) as char else c
  }

  function Lower(s: string): (r: string)
    ensures |r| == |s|
    ensures forall i :: 0 <= i < |s| ==> r[i] == LowerChar(s[i])
  {
    if s == [] then [] else [LowerChar(s[0])] + Lower(s[1..])
  }

  /** Lower-casing turns no character into whitespace and no whitespace into
      anything else, so a trimmed string stays trimmed. */
  lemma LowerKeepsTrimmed(s: string)
    requires JsTrim(s) == s
    ensures JsTrim(Lower(s)) == Lower(s)
  {
    if s != [] {
      assert !IsJsSpace(s[0]) && !IsJsSpace(s[|s| - 1]);
    }
    StripOfClean(Lower(s), IsJsSpace);
  }

  lemma LowerIdempotent(s: string)
    ensures Lower(Lower(s)) == Lower(s)
  {
  }

  lemma LowerConcat(a: string, b: string)
    ensures Lower(a + b) == Lower(a) + Lower(b)
  {
  }

  // ---------------------------------------------------------------------------
  // Runs and stripping
  // ---------------------------------------------------------------------------

  /** The end of the longest run of characters satisfying `p` that starts at `i`:
      what a greedy `[...]*` reaches. */
  function RunEnd(s: string, i: nat, p: char -> bool): (j: nat)
    requires i <= |s|
    ensures i <= j <= |s|
    ensures forall k :: i <= k < j ==> p(s[k])
    ensures j == |s| || !p(s[j])
    decreases |s| - i
  {
    if i == |s| || !p(s[i]) then i else RunEnd(s, i + 1, p)
  }

  /** A run that satisfies `p` throughout and is stopped by the end or by a character
      failing `p` is the one `RunEnd` finds. */
  lemma RunEndUnique(s: string, i: nat, j: nat, p: char -> bool)
    requires i <= j <= |s|
    requires forall k :: i <= k < j ==> p(s[k])
    requires j == |s| || !p(s[j])
    ensures RunEnd(s, i, p) == j
  {
  }

  /** The start of the longest run of characters satisfying `p` that ends at `j`. */
  function RunStartBack(s: string, j: nat, p: char -> bool): (i: nat)
    requires j <= |s|
    ensures i <= j
    ensures forall k :: i <= k < j ==> p(s[k])
    ensures i == 0 || !p(s[i - 1])
    decreases j
  {
    if j == 0 || !p(s[j - 1]) then j else RunStartBack(s, j - 1, p)
  }

  /** The last position in `[a, b)` whose character satisfies `p`: where a greedy
      `[...]*` followed by a `p`-character settles after backtracking. */
  function LastWhere(s: string, a: nat, b: nat, p: char -> bool): (r: Option<nat>)
    requires a <= b <= |s|
    ensures r.Some? ==> a <= r.value < b && p(s[r.value])
    ensures r.Some? ==> forall k :: r.value < k < b ==> !p(s[k])
    ensures r.None? ==> forall k :: a <= k < b ==> !p(s[k])
    decreases b
  {
    if a == b then None
    else if p(s[b - 1]) then Some(b - 1)
    else LastWhere(s, a, b - 1, p)
  }

  /** Where stripping `p`-characters from both ends of `s` starts and stops. */
  function StripBounds(s: string, p: char -> bool): (b: (nat, nat))
    ensures b.0 <= b.1 <= |s|
    ensures forall k :: 0 <= k < b.0 ==> p(s[k])
    ensures forall k :: b.1 <= k < |s| ==> p(s[k])
    ensures b.0 < b.1 ==> !p(s[b.0]) && !p(s[b.1 - 1])
  {
    var a := RunEnd(s, 0, p);
    if a == |s| then (a, a) else (a, RunStartBack(s, |s|, p))
  }

  /** `s` with every leading and trailing character satisfying `p` removed. */
  function Strip(s: string, p: char -> bool): (r: string)
    ensures r == [] || (!p(r[0]) && !p(r[|r| - 1]))
  {
    var b := StripBounds(s, p);
    s[b.0..b.1]
  }

  /** Stripping twice strips nothing more. */
  lemma StripIdempotent(s: string, p: char -> bool)
    ensures Strip(Strip(s, p), p) == Strip(s, p)
  {
    var r := Strip(s, p);
    if r != [] {
      assert RunEnd(r, 0, p) == 0;
      assert RunStartBack(r, |r|, p) == |r|;
    }
  }

  /** Stripping leaves a string alone when neither end satisfies `p`. */
  lemma StripOfClean(s: string, p: char -> bool)
    requires s == [] || (!p(s[0]) && !p(s[|s| - 1]))
    ensures Strip(s, p) == s
  {
    if s != [] {
      assert RunEnd(s, 0, p) == 0;
      assert RunStartBack(s, |s|, p) == |s|;
    }
  }

  /** Stripping keeps a run of the characters of `s`, so whatever holds of all of them
      holds of all of the result. */
  lemma StripKeeps(s: string, p: char -> bool, q: char -> bool)
    requires forall k :: 0 <= k < |s| ==> q(s[k])
    ensures forall k :: 0 <= k < |Strip(s, p)| ==> q(Strip(s, p)[k])
  {
    var b := StripBounds(s, p);
    forall k | 0 <= k < |Strip(s, p)|
      ensures q(Strip(s, p)[k])
    {
      assert Strip(s, p)[k] == s[b.0 + k];
    }
  }

  /** JavaScript `String.prototype.trim`. */
  function JsTrim(s: string): string { Strip(s, IsJsSpace) }

  /** Python `str.strip()` with no argument. */
  function PyStrip(s: string): string { Strip(s, IsPySpace) }

  // ---------------------------------------------------------------------------
  // Prefixes, occurrences, replacement
  // ---------------------------------------------------------------------------

  predicate StartsWith(s: string, prefix: string) {
    |prefix| <= |s| && s[..|prefix|] == prefix
  }

  predicate EndsWith(s: string, suffix: string) {
    |suffix| <= |s| && s[|s| - |suffix|..] == suffix
  }

  predicate OccursAt(s: string, pat: string, i: int) {
    0 <= i && i + |pat| <= |s| && s[i..i + |pat|] == pat
  }

  /** A slice splits at any point inside it. */
  lemma SliceSplit(s: string, a: nat, b: nat, c: nat)
    requires a <= b <= c <= |s|
    ensures s[a..c] == s[a..b] + s[b..c]
  {
  }

  /** `h + (a + c) == (h + a) + c`, for results named by their equations. */
  lemma HeadThenSplit(h: string, r: string, rTail: string, ru: string, a: string, c: string)
    requires r == h + rTail && rTail == a + c && ru == h + a
    ensures r == ru + c
  {
  }

  /** `a + (h + c) == a + h + c`, for results named by their equations. */
  lemma SplitThenHead(r: string, a: string, rt: string, h: string, c: string)
    requires r == a + rt && rt == h + c
    ensures r == a + h + c
  {
  }

  /** Concatenation regrouped. */
  lemma ConcatAssoc(a: string, b: string, c: string)
    ensures a + b + c == a + (b + c)
  {
  }

  /** A slice known to equal `w` agrees with `w` on every sub-slice. */
  lemma SliceOfKnown(s: string, p: nat, w: string, i: nat, j: nat)
    requires p + |w| <= |s| && s[p..p + |w|] == w
    requires i <= j <= |w|
    ensures s[p + i..p + j] == w[i..j]
    ensures i < |w| ==> s[p + i] == w[i]
  {
    forall k | 0 <= k < j - i
      ensures s[p + i..p + j][k] == w[i..j][k]
    {
      assert s[p + i + k] == s[p..p + |w|][i + k];
    }
    if i < |w| {
      assert s[p + i] == s[p..p + |w|][i];
    }
  }

  /** A slice equal to a string whose characters all satisfy `p` satisfies `p` throughout. */
  lemma AllOfKnown(s: string, i: nat, t: string, p: char -> bool)
    requires i + |t| <= |s| && s[i..i + |t|] == t
    requires forall k :: 0 <= k < |t| ==> p(t[k])
    ensures forall k :: i <= k < i + |t| ==> p(s[k])
  {
    forall k | i <= k < i + |t|
      ensures p(s[k])
    {
      assert s[k] == s[i..i + |t|][k - i];
    }
  }

  /** The converse: a string equal to a slice all of whose characters satisfy `p`. */
  lemma KnownOfAll(s: string, i: nat, t: string, p: char -> bool)
    requires i + |t| <= |s| && s[i..i + |t|] == t
    requires forall k :: i <= k < i + |t| ==> p(s[k])
    ensures forall k :: 0 <= k < |t| ==> p(t[k])
  {
    forall k | 0 <= k < |t|
      ensures p(t[k])
    {
      assert t[k] == s[i + k];
    }
  }

  predicate Contains(s: string, pat: string) {
    exists i :: 0 <= i <= |s| && OccursAt(s, pat, i)
  }

  /** `indexOf(pat, from)`: the first occurrence at or after `from`. */
  function Find(s: string, pat: string, from: nat): (r: Option<nat>)
    ensures r.Some? ==> from <= r.value && OccursAt(s, pat, r.value)
    ensures r.Some? ==> forall k :: from <= k < r.value ==> !OccursAt(s, pat, k)
    ensures r.None? ==> forall k :: from <= k ==> !OccursAt(s, pat, k)
    decreases |s| + 1 - from
  {
    if from + |pat| > |s| then None
    else if s[from..from + |pat|] == pat then Some(from)
    else Find(s, pat, from + 1)
  }

  /** `s.replace(pat, rep)` with a string pattern: only the first occurrence is replaced. */
  function ReplaceFirst(s: string, pat: string, rep: string): (r: string)
    ensures StartsWith(s, pat) ==> r == rep + s[|pat|..]
    ensures Find(s, pat, 0).None? ==> r == s
  {
    match Find(s, pat, 0)
    case Some(i) => s[..i] + rep + s[i + |pat|..]
    case None => s
  }

  /** Stripping a leading copy of `prefix` with `replace` leaves the rest. */
  lemma ReplaceFirstOfPrefixed(prefix: string, rest: string)
    ensures ReplaceFirst(prefix + rest, prefix, "") == rest
  {
    assert (prefix + rest)[..|prefix|] == prefix;
  }

  /** An occurrence of the pattern with none before it is the one replaced, wherever
      it stands: `replace` with a string pattern is not anchored. */
  lemma ReplaceFirstAt(a: string, pat: string, b: string, rep: string)
    requires forall k :: 0 <= k < |a| ==> !OccursAt(a + pat + b, pat, k)
    ensures ReplaceFirst(a + pat + b, pat, rep) == a + rep + b
  {
    var s := a + pat + b;
    assert s[|a|..|a| + |pat|] == pat;
    assert OccursAt(s, pat, |a|);
    assert Find(s, pat, 0) == Some(|a|);
    assert s[..|a|] == a && s[|a| + |pat|..] == b;
  }

  // ---------------------------------------------------------------------------
  // Filtering and UTF-16
  // ---------------------------------------------------------------------------

  /** The characters of `s` satisfying `p`, in order. */
  function Keep(s: string, p: char -> bool): (r: string)
    ensures |r| <= |s|
    ensures forall k :: 0 <= k < |r| ==> p(r[k])
  {
    if s == [] then [] else (if p(s[0]) then [s[0]] else []) + Keep(s[1..], p)
  }

  lemma KeepConcat(a: string, b: string, p: char -> bool)
    ensures Keep(a + b, p) == Keep(a, p) + Keep(b, p)
  {
    if a != [] {
      var head := if p(a[0]) then [a[0]] else [];
      assert (a + b)[0] == a[0];
      assert (a + b)[1..] == a[1..] + b;
      KeepConcat(a[1..], b, p);
      calc {
        Keep(a + b, p);
        head + Keep(a[1..] + b, p);
        head + (Keep(a[1..], p) + Keep(b, p));
        (head + Keep(a[1..], p)) + Keep(b, p);
        Keep(a, p) + Keep(b, p);
      }
    } else {
      assert a + b == b;
    }
  }

  /** `Keep` drops everything when nothing satisfies `p`. */
  lemma KeepNone(s: string, p: char -> bool)
    requires forall k :: 0 <= k < |s| ==> !p(s[k])
    ensures Keep(s, p) == []
  {
    if s != [] {
      KeepNone(s[1..], p);
    }
  }

  /** `Keep` keeps everything when everything satisfies `p`. */
  lemma {:induction false} KeepAll(s: string, p: char -> bool)
    requires forall k :: 0 <= k < |s| ==> p(s[k])
    ensures Keep(s, p) == s
    decreases |s|
  {
    if s != [] {
      KeepAll(s[1..], p);
    }
  }

  /** Keeping by `p` first loses nothing that `q` would keep, when `q` implies `p`. */
  lemma {:induction false} KeepKeep(s: string, p: char -> bool, q: char -> bool)
    requires forall c :: q(c) ==> p(c)
    ensures Keep(Keep(s, p), q) == Keep(s, q)
    decreases |s|
  {
    if s != [] {
      var head := if p(s[0]) then [s[0]] else [];
      KeepKeep(s[1..], p, q);
      KeepConcat(head, Keep(s[1..], p), q);
    }
  }

  /** Stripping characters `q` never keeps does not change what `q` keeps. */
  lemma KeepStrip(s: string, p: char -> bool, q: char -> bool)
    requires forall c :: p(c) ==> !q(c)
    ensures Keep(Strip(s, p), q) == Keep(s, q)
  {
    var b := StripBounds(s, p);
    var pre, mid, post := s[..b.0], s[b.0..b.1], s[b.1..];
    assert s == pre + mid + post;
    assert Keep(pre, q) == [] by {
      forall k | 0 <= k < |pre| ensures !q(pre[k]) {
        assert pre[k] == s[k];
      }
      KeepNone(pre, q);
    }
    assert Keep(post, q) == [] by {
      forall k | 0 <= k < |post| ensures !q(post[k]) {
        assert post[k] == s[b.1 + k];
      }
      KeepNone(post, q);
    }
    KeepConcat(pre + mid, post, q);
    KeepConcat(pre, mid, q);
  }

  /** How many UTF-16 code units encode `c`. */
  function Utf16Width(c: char): nat {
    if c as int >= 0x1_0000 then 2 else 1
  }

  /** JavaScript `.length`: the number of UTF-16 code units. */
  function Utf16Length(s: string): (n: nat)
    ensures |s| <= n <= 2 * |s|
  {
    if s == [] then 0 else Utf16Width(s[0]) + Utf16Length(s[1..])
  }

  /** The UTF-16 code units of `s`, as `charCodeAt` reads them. */
  function Utf16Units(s: string): (u: seq<int>)
    ensures |u| == Utf16Length(s)
    ensures forall k :: 0 <= k < |u| ==> 0 <= u[k] < 0x1_0000
  {
    if s == [] then []
    else
      var c := s[0] as int;
      (if c < 0x1_0000 then [c]
       else [0xD800 + (c - 0x1_0000) / 0x400, 0xDC00 + (c - 0x1_0000) % 0x400])
      + Utf16Units(s[1..])
  }
}
