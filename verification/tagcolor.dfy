/** `getTagColor` of the theme's item-tags component: a string hash over the UTF-16
    code units of the tag slug, folded with JavaScript's 32-bit shift, picks one of
    five colour sets by `Math.abs(hash) % 5`.

    The shift `hash << 5` converts its operand with ToInt32 and yields a signed 32-bit
    value, but the subtraction and the addition around it are double arithmetic, so the
    running hash itself is not wrapped. The model keeps it as an unbounded integer;
    `HashBound` shows it stays far inside the range where doubles are exact. */
module TagColor {
  import opened Chars

  const TwoTo31: int := 0x8000_0000
  const TwoTo32: int := 0x1_0000_0000

  /** The ECMAScript ToInt32 conversion of an integral value: the representative of
      `x` modulo 2^32 in the signed 32-bit range. */
  function ToInt32(x: int): (r: int)
    ensures -TwoTo31 <= r < TwoTo31
    ensures (x - r) % TwoTo32 == 0
  {
    var m := x % TwoTo32;
    assert x == TwoTo32 * (x / TwoTo32) + m;
    if m >= TwoTo31 then m - TwoTo32 else m
  }

  /** A value already in the signed 32-bit range converts to itself. */
  lemma ToInt32OfInt32(x: int)
    requires -TwoTo31 <= x < TwoTo31
    ensures ToInt32(x) == x
  {
    if x < 0 {
      assert (x + TwoTo32) % TwoTo32 == x + TwoTo32;
    }
  }

  /** `h << 5`: the low 32 bits of 32 times `h`, read as a signed 32-bit value. */
  function Shl5(h: int): (r: int)
    ensures -TwoTo31 <= r < TwoTo31
    ensures (r - 32 * h) % TwoTo32 == 0
  {
    var a := ToInt32(h);
    var r := ToInt32(a * 32);
    MultipleSum(a * 32 - r, h - a, 32);
    assert a * 32 - r + 32 * (h - a) == 32 * h - r;
    NegMultiple(32 * h - r);
    r
  }

  /** The negation of a multiple of 2^32 is one. */
  lemma NegMultiple(x: int)
    requires x % TwoTo32 == 0
    ensures (-x) % TwoTo32 == 0
  {
    var q := x / TwoTo32;
    assert x == TwoTo32 * q;
    assert -x == TwoTo32 * (-q);
  }

  /** Sums of multiples of 2^32 are multiples of 2^32. */
  lemma MultipleSum(x: int, y: int, k: int)
    requires x % TwoTo32 == 0 && y % TwoTo32 == 0
    ensures (x + k * y) % TwoTo32 == 0
  {
    var qx := x / TwoTo32;
    var qy := y / TwoTo32;
    assert x == TwoTo32 * qx;
    assert y == TwoTo32 * qy;
    assert x + k * y == TwoTo32 * (qx + k * qy);
  }

  /** One round of the loop: `hash = code + ((hash << 5) - hash)`. */
  function Step(h: int, code: int): int {
    code + (Shl5(h) - h)
  }

  /** The loop over the code units, from the running value `h`. */
  function HashFrom(h: int, units: seq<int>): int
    decreases |units|
  {
    if units == [] then h else HashFrom(Step(h, units[0]), units[1..])
  }

  /** The hash of a slug: the loop from 0 over its UTF-16 code units. Modulo 2^32 it
      is the textbook polynomial hash of those units. */
  function Hash(slug: string): (r: int)
    ensures (r - Poly31(0, Utf16Units(slug))) % TwoTo32 == 0
  {
    HashFromIsPoly31(0, 0, Utf16Units(slug));
    HashFrom(0, Utf16Units(slug))
  }

  /** Hashing is a left fold: a split input can be hashed piece by piece. */
  lemma {:induction false} HashFromConcat(h: int, a: seq<int>, b: seq<int>)
    ensures HashFrom(h, a + b) == HashFrom(HashFrom(h, a), b)
    decreases |a|
  {
    if a == [] {
      assert a + b == b;
    } else {
      assert (a + b)[1..] == a[1..] + b;
      HashFromConcat(Step(h, a[0]), a[1..], b);
    }
  }

  /** The textbook string hash `p * 31 + code`, on unbounded integers. */
  function Poly31(p: int, units: seq<int>): int
    decreases |units|
  {
    if units == [] then p else Poly31(31 * p + units[0], units[1..])
  }

  /** Modulo 2^32 the loop computes the textbook hash: `(h << 5) - h` is `31 * h`
      up to a multiple of 2^32. */
  lemma {:induction false} HashFromIsPoly31(h: int, p: int, units: seq<int>)
    requires (h - p) % TwoTo32 == 0
    ensures (HashFrom(h, units) - Poly31(p, units)) % TwoTo32 == 0
    decreases |units|
  {
    if units != [] {
      var c := units[0];
      MultipleSum(Shl5(h) - 32 * h, h - p, 31);
      assert Step(h, c) - (31 * p + c) == (Shl5(h) - 32 * h) + 31 * (h - p);
      HashFromIsPoly31(Step(h, c), 31 * p + c, units[1..]);
    }
  }

  /** Each round moves the hash by less than 2^31 + 2^16, so after `n` code units it
      is below `n * (2^31 + 2^16)` in size: every intermediate value is an integer a
      double holds exactly for any slug shorter than a million code units. */
  lemma {:induction false} HashBound(h: int, units: seq<int>)
    requires forall k :: 0 <= k < |units| ==> 0 <= units[k] < 0x1_0000
    ensures Abs(HashFrom(h, units)) <= Abs(h) + |units| * (TwoTo31 + 0x1_0000)
    decreases |units|
  {
    if units != [] {
      assert forall k :: 0 <= k < |units| - 1 ==> units[1..][k] == units[k + 1];
      HashBound(Step(h, units[0]), units[1..]);
    }
  }

  function Abs(x: int): (a: nat)
    ensures a == x || a == -x
  {
    if x < 0 then -x else x
  }

  /** One entry of `tagColors`. */
  datatype Palette = Palette(bg: string, color: string, hoverBg: string, hoverColor: string)

  /** Yellow, pink, green, blue, orange. */
  const TagColors: seq<Palette> := [
    Palette("#fef3c7", "#92400e", "#fde68a", "#78350f"),
    Palette("#fce7f3", "#9f1239", "#fbcfe8", "#831843"),
    Palette("#d1fae5", "#065f46", "#a7f3d0", "#047857"),
    Palette("#dbeafe", "#1e40af", "#bfdbfe", "#1e3a8a"),
    Palette("#fed7aa", "#9a3412", "#fdba74", "#7c2d12")
  ]

  /** `Math.abs(hash) % tagColors.length`. */
  function ColorIndex(slug: string): (i: nat)
    ensures i < |TagColors| == 5
  {
    Abs(Hash(slug)) % |TagColors|
  }

  /** `getTagColor`: always one of the five colour sets. */
  function GetTagColor(slug: string): (c: Palette)
    ensures c in TagColors
  {
    TagColors[ColorIndex(slug)]
  }

  /** Two slugs whose hashes agree up to sign share a colour; in particular the colour
      depends on the slug only through its code units. */
  lemma SameHashSameColor(s: string, t: string)
    requires Abs(Hash(s)) == Abs(Hash(t))
    ensures GetTagColor(s) == GetTagColor(t)
  {
  }

  /** A slug of one code unit hashes to that unit. */
  lemma {:induction false} OneUnitHash(c: char)
    requires (c as int) < 0x1_0000
    ensures Hash([c]) == c as int
    ensures ColorIndex([c]) == (c as int) % 5
  {
    assert Utf16Units([c]) == [c as int] + Utf16Units([]);
    assert HashFrom(0, [c as int]) == HashFrom(Step(0, c as int), []);
    assert Shl5(0) == 0 by {
      ToInt32OfInt32(0);
    }
  }

  /** The empty slug never enters the loop and gets the first colour, yellow. */
  lemma EmptySlugColor()
    ensures Hash("") == 0
    ensures GetTagColor("") == TagColors[0] && GetTagColor("").bg == "#fef3c7"
  {
  }

  /** The slug "a" (code 97) lands on entry 97 % 5 == 2, green. */
  lemma SlugAColor()
    ensures GetTagColor("a") == TagColors[2] && GetTagColor("a").bg == "#d1fae5"
  {
    OneUnitHash('a');
  }
}
