/** Decision diagrams over the boolean bit variables of complete set variables,
    modelled by what they denote, together with the specifications of the
    diagram builders the set constraints use (cardinality, intersection
    cardinality, lexicographic order).

    A complete set variable over the values [min, min + width) owns the bit
    variables [offset, offset + width); bit i says whether value min + i is in
    the set. Diagrams are canonical, so two diagrams are the same diagram
    exactly when they agree on every assignment: that is `Same`. */
module CpltSetBdd {

  /** An assignment of truth values to the global bit variables. */
  type Env = int -> bool

  /** A decision diagram, represented by the predicate it denotes. */
  type Bdd = Env -> bool

  /** bdd_true() */
  function BddTrue(): Bdd { (env: Env) => true }

  /** The diagram of one bit variable. */
  function BddVar(v: int): Bdd { (env: Env) => env(v) }

  /** d & e */
  function And(d: Bdd, e: Bdd): Bdd { (env: Env) => d(env) && e(env) }

  /** d % e: BuDDy's biimplication. */
  function Biimp(d: Bdd, e: Bdd): Bdd { (env: Env) => d(env) == e(env) }

  /** Two diagrams are the same diagram when they denote the same predicate. */
  ghost predicate Same(d: Bdd, e: Bdd) {
    forall env :: d(env) == e(env)
  }

  /** Bit i of the bit range that starts at variable off. */
  function Bit(env: Env, off: int, i: int): bool { env(off + i) }

  // ---------------------------------------------------------------------------
  // Cardinality

  /** Number of set bits among bits [0, width) of the range at off. */
  function PopCount(env: Env, off: int, width: nat): (r: nat)
    ensures r <= width
  {
    if width == 0 then 0
    else PopCount(env, off, width - 1) + (if Bit(env, off, width - 1) then 1 else 0)
  }

  /** The values v in [min, min + width) whose bit v - min is on: the set a
      range encodes when bit i stands for value min + i. */
  ghost function OnValues(env: Env, off: int, min: int, width: nat): set<int> {
    set v | min <= v < min + width && BitOf(env, off, min, v)
  }

  /** Bit of value v in a range whose first bit stands for value min. */
  predicate BitOf(env: Env, off: int, min: int, v: int) {
    Bit(env, off, v - min)
  }

  /** PopCount counts exactly the values the range encodes. */
  lemma {:induction false} PopCountIsSize(env: Env, off: int, min: int, width: nat)
    ensures PopCount(env, off, width) == |OnValues(env, off, min, width)|
  {
    if width > 0 {
      var w := width - 1;
      PopCountIsSize(env, off, min, w);
      OnValuesExtend(env, off, min, w);
      assert min + w !in OnValues(env, off, min, w);
    }
  }

  /** Widening the range by bit w adds value min + w exactly when that bit is on. */
  lemma OnValuesExtend(env: Env, off: int, min: int, w: nat)
    ensures OnValues(env, off, min, w + 1) ==
            OnValues(env, off, min, w) + (if Bit(env, off, w) then {min + w} else {})
  {
    var below, all := OnValues(env, off, min, w), OnValues(env, off, min, w + 1);
    var extra: set<int> := if Bit(env, off, w) then {min + w} else {};
    forall v | v in all ensures v in below + extra {
      if v < min + w {
        assert v in below;
      }
    }
    forall v | v in below + extra ensures v in all {
    }
  }

  /** Number of positions i < width at which both ranges have bit i set:
      the size of the intersection of two set variables. */
  function InterCount(env: Env, xoff: int, yoff: int, width: nat): nat {
    if width == 0 then 0
    else
      InterCount(env, xoff, yoff, width - 1)
      + (if Bit(env, xoff, width - 1) && Bit(env, yoff, width - 1) then 1 else 0)
  }

  /** The values in [min, min + width) whose bits are on in both ranges. */
  ghost function BothOnValues(env: Env, xoff: int, yoff: int, min: int, width: nat): set<int> {
    set v | min <= v < min + width && BitOf(env, xoff, min, v) && BitOf(env, yoff, min, v)
  }

  /** InterCount counts exactly the values both ranges encode. */
  lemma {:induction false} InterCountIsSize(env: Env, xoff: int, yoff: int, min: int, width: nat)
    ensures InterCount(env, xoff, yoff, width) == |BothOnValues(env, xoff, yoff, min, width)|
  {
    if width > 0 {
      var w := width - 1;
      InterCountIsSize(env, xoff, yoff, min, w);
      BothOnValuesExtend(env, xoff, yoff, min, w);
      assert min + w !in BothOnValues(env, xoff, yoff, min, w);
    }
  }

  lemma BothOnValuesExtend(env: Env, xoff: int, yoff: int, min: int, w: nat)
    ensures BothOnValues(env, xoff, yoff, min, w + 1) ==
            BothOnValues(env, xoff, yoff, min, w)
            + (if Bit(env, xoff, w) && Bit(env, yoff, w) then {min + w} else {})
  {
    var below, all := BothOnValues(env, xoff, yoff, min, w), BothOnValues(env, xoff, yoff, min, w + 1);
    var extra: set<int> := if Bit(env, xoff, w) && Bit(env, yoff, w) then {min + w} else {};
    forall v | v in all ensures v in below + extra {
      if v < min + w {
        assert v in below;
      }
    }
    forall v | v in below + extra ensures v in all {
    }
  }

  /** The intersection is no larger than either operand. */
  lemma {:induction false} InterCountBounded(env: Env, xoff: int, yoff: int, width: nat)
    ensures InterCount(env, xoff, yoff, width) <= PopCount(env, xoff, width)
    ensures InterCount(env, xoff, yoff, width) <= PopCount(env, yoff, width)
  {
    if width > 0 {
      InterCountBounded(env, xoff, yoff, width - 1);
    }
  }

  /** When a third range holds exactly the bitwise AND of two others, its
      population is their intersection count. */
  lemma {:induction false} PopCountOfLinked(env: Env, xoff: int, yoff: int, zoff: int, width: nat)
    requires forall i :: 0 <= i < width ==> Bit(env, zoff, i) == (Bit(env, xoff, i) && Bit(env, yoff, i))
    ensures PopCount(env, zoff, width) == InterCount(env, xoff, yoff, width)
  {
    if width > 0 {
      PopCountOfLinked(env, xoff, yoff, zoff, width - 1);
    }
  }

  /** cardcheck(width, off, lo, hi): between lo and hi bits of the range are set. */
  function CardCheck(width: nat, off: int, lo: int, hi: int): Bdd {
    (env: Env) => lo <= PopCount(env, off, width) <= hi
  }

  /** The values of a set, among those the range [min, min + width) encodes,
      whose bits are set. */
  function Chosen(env: Env, off: int, min: int, width: nat, values: set<int>): set<int> {
    set v | v in values && min <= v < min + width && Bit(env, off, v - min)
  }

  /** cardConst(width, off, min, lo, hi, values): between lo and hi of the
      given values are in the set encoded at off. */
  function CardConst(width: nat, off: int, min: int, lo: int, hi: int, values: set<int>): Bdd {
    (env: Env) => lo <= |Chosen(env, off, min, width, values)| <= hi
  }

  // ---------------------------------------------------------------------------
  // Lexicographic order

  /** lexlt / lexlq: compares the two ranges bit by bit from bit `start` down
      to bit 0, the higher bit deciding; `strict` selects < over <=. */
  function LexDown(env: Env, xoff: int, yoff: int, start: int, strict: bool): bool
    decreases start + 1
  {
    if start < 0 then !strict
    else
      var a, b := Bit(env, xoff, start), Bit(env, yoff, start);
      (!a && b) || (a == b && LexDown(env, xoff, yoff, start - 1, strict))
  }

  /** lexltrev / lexlqrev: compares the ranges from bit `start` up to bit
      width - 1, the lower bit deciding. */
  function LexUp(env: Env, xoff: int, yoff: int, width: nat, start: nat, strict: bool): bool
    decreases width - start
  {
    if start >= width then !strict
    else
      var a, b := Bit(env, xoff, start), Bit(env, yoff, start);
      (!a && b) || (a == b && LexUp(env, xoff, yoff, width, start + 1, strict))
  }

  /** lexlt(xoff, yoff, width, start) */
  function LexLt(xoff: int, yoff: int, width: nat, start: int): Bdd {
    (env: Env) => LexDown(env, xoff, yoff, start, true)
  }

  /** lexlq(xoff, yoff, width, start) */
  function LexLq(xoff: int, yoff: int, width: nat, start: int): Bdd {
    (env: Env) => LexDown(env, xoff, yoff, start, false)
  }

  /** lexltrev(xoff, yoff, width, start) */
  function LexLtRev(xoff: int, yoff: int, width: nat, start: nat): Bdd {
    (env: Env) => LexUp(env, xoff, yoff, width, start, true)
  }

  /** lexlqrev(xoff, yoff, width, start) */
  function LexLqRev(xoff: int, yoff: int, width: nat, start: nat): Bdd {
    (env: Env) => LexUp(env, xoff, yoff, width, start, false)
  }

  // Reference definitions: the bit strings and standard lexicographic order.

  /** The bits start, start - 1, ..., 0 of a range, in that order. */
  function BitsDown(env: Env, off: int, start: int): (s: seq<bool>)
    ensures |s| == if start < 0 then 0 else start + 1
    decreases start + 1
  {
    if start < 0 then [] else [Bit(env, off, start)] + BitsDown(env, off, start - 1)
  }

  /** The bits start, start + 1, ..., width - 1 of a range, in that order. */
  function BitsUp(env: Env, off: int, width: nat, start: nat): (s: seq<bool>)
    ensures |s| == if start >= width then 0 else width - start
    decreases width - start
  {
    if start >= width then [] else [Bit(env, off, start)] + BitsUp(env, off, width, start + 1)
  }

  /** Standard lexicographic order on equally long bit strings, false before true. */
  ghost predicate LexLess(a: seq<bool>, b: seq<bool>) {
    |a| == |b| && exists k :: 0 <= k < |a| && a[..k] == b[..k] && !a[k] && b[k]
  }

  ghost predicate LexLessEq(a: seq<bool>, b: seq<bool>) {
    a == b || LexLess(a, b)
  }

  function Reversed(s: seq<bool>): (r: seq<bool>)
    ensures |r| == |s|
  {
    if s == [] then [] else Reversed(s[1..]) + [s[0]]
  }

  /** Comparing two strings that start with a0 and b0: the first bits decide
      unless they are equal. */
  lemma ConsLexLess(a0: bool, b0: bool, a: seq<bool>, b: seq<bool>)
    requires |a| == |b|
    ensures LexLess([a0] + a, [b0] + b) <==> (!a0 && b0) || (a0 == b0 && LexLess(a, b))
  {
    var A, B := [a0] + a, [b0] + b;
    if !a0 && b0 {
      assert A[..0] == B[..0];
    } else if a0 == b0 && LexLess(a, b) {
      var k :| 0 <= k < |a| && a[..k] == b[..k] && !a[k] && b[k];
      assert A[..k + 1] == [a0] + a[..k];
      assert B[..k + 1] == [b0] + b[..k];
      assert A[k + 1] == a[k] && B[k + 1] == b[k];
    }
    if LexLess(A, B) && !(!a0 && b0) {
      var k :| 0 <= k < |A| && A[..k] == B[..k] && !A[k] && B[k];
      assert k > 0;
      assert A[..k][0] == a0 && B[..k][0] == b0;
      assert A[..k][1..] == a[..k - 1];
      assert B[..k][1..] == b[..k - 1];
      assert a[k - 1] == A[k] && b[k - 1] == B[k];
    }
  }

  lemma ConsEqual(a0: bool, b0: bool, a: seq<bool>, b: seq<bool>)
    ensures ([a0] + a == [b0] + b) <==> (a0 == b0 && a == b)
  {
    if [a0] + a == [b0] + b {
      assert ([a0] + a)[0] == a0 && ([b0] + b)[0] == b0;
      assert ([a0] + a)[1..] == a && ([b0] + b)[1..] == b;
    }
  }

  /** The forward builders compare the strings of bits from `start` down. */
  lemma {:induction false} LexDownMeaning(env: Env, xoff: int, yoff: int, start: int, strict: bool)
    ensures LexDown(env, xoff, yoff, start, strict) <==>
            if strict then LexLess(BitsDown(env, xoff, start), BitsDown(env, yoff, start))
            else LexLessEq(BitsDown(env, xoff, start), BitsDown(env, yoff, start))
    decreases start + 1
  {
    if start >= 0 {
      LexDownMeaning(env, xoff, yoff, start - 1, strict);
      var a, b := BitsDown(env, xoff, start - 1), BitsDown(env, yoff, start - 1);
      ConsLexLess(Bit(env, xoff, start), Bit(env, yoff, start), a, b);
      ConsEqual(Bit(env, xoff, start), Bit(env, yoff, start), a, b);
    }
  }

  /** The reverse builders compare the strings of bits from `start` up. */
  lemma {:induction false} LexUpMeaning(env: Env, xoff: int, yoff: int, width: nat, start: nat, strict: bool)
    ensures LexUp(env, xoff, yoff, width, start, strict) <==>
            if strict then LexLess(BitsUp(env, xoff, width, start), BitsUp(env, yoff, width, start))
            else LexLessEq(BitsUp(env, xoff, width, start), BitsUp(env, yoff, width, start))
    decreases width - start
  {
    if start < width {
      LexUpMeaning(env, xoff, yoff, width, start + 1, strict);
      var a, b := BitsUp(env, xoff, width, start + 1), BitsUp(env, yoff, width, start + 1);
      ConsLexLess(Bit(env, xoff, start), Bit(env, yoff, start), a, b);
      ConsEqual(Bit(env, xoff, start), Bit(env, yoff, start), a, b);
    }
  }

  /** Exactly one of a < b, a == b, b < a holds for equally long strings. */
  lemma {:induction false} LexTrichotomy(a: seq<bool>, b: seq<bool>)
    requires |a| == |b|
    ensures LexLess(a, b) || a == b || LexLess(b, a)
    ensures !(LexLess(a, b) && LexLess(b, a))
    ensures !(LexLess(a, b) && a == b)
  {
    if |a| > 0 {
      LexTrichotomy(a[1..], b[1..]);
      assert a == [a[0]] + a[1..] && b == [b[0]] + b[1..];
      ConsLexLess(a[0], b[0], a[1..], b[1..]);
      ConsLexLess(b[0], a[0], b[1..], a[1..]);
      ConsEqual(a[0], b[0], a[1..], b[1..]);
    }
  }

  /** Reading a range from its top bit down is reading it from bit 0 up,
      reversed: the forward and reverse relations traverse the same bits in
      opposite orders. */
  lemma {:induction false} DownIsReversedUp(env: Env, off: int, width: nat, start: nat)
    requires start <= width
    ensures BitsDown(env, off, width - 1)[..width - start] == Reversed(BitsUp(env, off, width, start))
    decreases width - start
  {
    if start < width {
      DownIsReversedUp(env, off, width, start + 1);
      var down := BitsDown(env, off, width - 1);
      var up := BitsUp(env, off, width, start + 1);
      var full := BitsUp(env, off, width, start);
      DownAt(env, off, width - 1, width - 1 - start);
      assert down[..width - start] == down[..width - (start + 1)] + [Bit(env, off, start)];
      assert full[1..] == up && full[0] == Bit(env, off, start);
      assert Reversed(full) == Reversed(up) + [Bit(env, off, start)];
    }
  }

  /** Element k of BitsDown is bit start - k. */
  lemma {:induction false} DownAt(env: Env, off: int, start: int, k: nat)
    requires k <= start
    ensures BitsDown(env, off, start)[k] == Bit(env, off, start - k)
    decreases start
  {
    if k > 0 {
      DownAt(env, off, start - 1, k - 1);
    }
  }
}
