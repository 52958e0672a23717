/** The cardinality, intersection and lexicographic set constraints of
    gecode/cpltset/constraints/atmost.cc: each entry point checks whether the
    space has failed, takes its shortcuts, and otherwise conjoins the diagrams
    of its sub-constraints and posts the result. */
module AtMost {
  import opened CpltSetBdd
  import opened CpltSetSpace

  datatype Option<T> = None | Some(value: T)

  datatype Order = Less | Greater | LessEq | GreaterEq
  datatype Direction = Forward | Reverse

  /** The eight lexicographic relations of CpltSetRelType: SRT_LE is
      Rel(Less, Forward), SRT_GQ_REV is Rel(GreaterEq, Reverse), and so on. */
  datatype CpltSetRelType = Rel(order: Order, dir: Direction)

  // ---------------------------------------------------------------------------
  // The lexicographic conjunct

  /** The conjunct the switch on `lex` adds for views x and y: the greater
      relations reuse the less builders with the offsets swapped; forward
      relations start at bit width - 1, reverse ones at bit 0. Both strings
      have x's width. */
  function LexConjunct(rel: CpltSetRelType, x: View, y: View): Bdd {
    var xoff, yoff, xtab := x.offset, y.offset, x.width;
    match rel
    case Rel(Less, Forward) => LexLt(xoff, yoff, xtab, xtab - 1)
    case Rel(Greater, Forward) => LexLt(yoff, xoff, xtab, xtab - 1)
    case Rel(LessEq, Forward) => LexLq(xoff, yoff, xtab, xtab - 1)
    case Rel(GreaterEq, Forward) => LexLq(yoff, xoff, xtab, xtab - 1)
    case Rel(Less, Reverse) => LexLtRev(xoff, yoff, xtab, 0)
    case Rel(Greater, Reverse) => LexLtRev(yoff, xoff, xtab, 0)
    case Rel(LessEq, Reverse) => LexLqRev(xoff, yoff, xtab, 0)
    case Rel(GreaterEq, Reverse) => LexLqRev(yoff, xoff, xtab, 0)
  }

  /** The bit string of width `width` at `off` in the order a direction
      reads it: highest bit first going forward, bit 0 first in reverse. */
  function Word(env: Env, off: int, width: nat, dir: Direction): (s: seq<bool>)
    ensures |s| == width
  {
    match dir
    case Forward => BitsDown(env, off, width - 1)
    case Reverse => BitsUp(env, off, width, 0)
  }

  /** The order o between two bit strings, by the standard lexicographic order. */
  ghost predicate OrderHolds(o: Order, a: seq<bool>, b: seq<bool>) {
    match o
    case Less => LexLess(a, b)
    case Greater => LexLess(b, a)
    case LessEq => LexLessEq(a, b)
    case GreaterEq => LexLessEq(b, a)
  }

  /** What the lex conjunct accepts: x's bit string stands in the relation to
      y's under the standard lexicographic order, read in the relation's
      direction. */
  lemma LexConjunctMeaning(rel: CpltSetRelType, x: View, y: View, env: Env)
    ensures LexConjunct(rel, x, y)(env) <==>
            OrderHolds(rel.order, Word(env, x.offset, x.width, rel.dir), Word(env, y.offset, x.width, rel.dir))
  {
    var xoff, yoff, w := x.offset, y.offset, x.width;
    var top := x.width as int - 1;
    match rel
    case Rel(Less, Forward) => LexDownMeaning(env, xoff, yoff, top, true);
    case Rel(Greater, Forward) => LexDownMeaning(env, yoff, xoff, top, true);
    case Rel(LessEq, Forward) => LexDownMeaning(env, xoff, yoff, top, false);
    case Rel(GreaterEq, Forward) => LexDownMeaning(env, yoff, xoff, top, false);
    case Rel(Less, Reverse) => LexUpMeaning(env, xoff, yoff, w, 0, true);
    case Rel(Greater, Reverse) => LexUpMeaning(env, yoff, xoff, w, 0, true);
    case Rel(LessEq, Reverse) => LexUpMeaning(env, xoff, yoff, w, 0, false);
    case Rel(GreaterEq, Reverse) => LexUpMeaning(env, yoff, xoff, w, 0, false);
  }

  /** Swapping the offsets yields the converse: x > y exactly when not x <= y,
      and x >= y exactly when not x < y, in either direction. */
  lemma GreaterIsConverse(dir: Direction, x: View, y: View, env: Env)
    ensures LexConjunct(Rel(Greater, dir), x, y)(env) <==> !LexConjunct(Rel(LessEq, dir), x, y)(env)
    ensures LexConjunct(Rel(GreaterEq, dir), x, y)(env) <==> !LexConjunct(Rel(Less, dir), x, y)(env)
  {
    LexConjunctMeaning(Rel(Greater, dir), x, y, env);
    LexConjunctMeaning(Rel(LessEq, dir), x, y, env);
    LexConjunctMeaning(Rel(GreaterEq, dir), x, y, env);
    LexConjunctMeaning(Rel(Less, dir), x, y, env);
    LexTrichotomy(Word(env, x.offset, x.width, dir), Word(env, y.offset, x.width, dir));
  }

  /** A forward relation reads the same bits as its reverse form, in the
      opposite order. */
  lemma ForwardIsReversedReverse(env: Env, off: int, width: nat)
    ensures Word(env, off, width, Forward) == Reversed(Word(env, off, width, Reverse))
  {
    DownIsReversedUp(env, off, width, 0);
    assert BitsDown(env, off, width - 1)[..width] == BitsDown(env, off, width - 1);
  }

  // ---------------------------------------------------------------------------
  // Binary constraints: atmost_post(home, x, y, c, lex, card)

  /** Number of bits of a view that are on: the size of its set (CardOfIsSize). */
  function CardOf(env: Env, x: View): nat { PopCount(env, x.offset, x.width) }

  /** Number of positions below x's width at which both views have their bit
      on; for views over one universe, the number of common values
      (SharedOfIsSize). */
  function SharedOf(env: Env, x: View, y: View): nat { InterCount(env, x.offset, y.offset, x.width) }

  /** The diagram both binary atmost_post overloads build. `lex` is None for
      the SetRelType overload, which adds no lex conjunct. */
  function BinaryPred(x: View, y: View, c: int, lex: Option<CpltSetRelType>, card: int): Bdd {
    var d0 := ExtCardCheck(x, y, 0, c);
    var d1 := if lex.Some? then And(d0, LexConjunct(lex.value, x, y)) else d0;
    var d2 := if card > -1 then And(And(d1, CardCheck(x.width, x.offset, card, card)),
                                    CardCheck(y.width, y.offset, card, card))
              else d1;
    var d3 := if x.Assigned() then And(d2, x.BddDomain()) else d2;
    if y.Assigned() then And(d3, y.BddDomain()) else d3
  }

  /** extcardcheck(x, y, lo, hi): between lo and hi positions are on in both. */
  function ExtCardCheck(x: View, y: View, lo: int, hi: int): Bdd {
    (env: Env) => lo <= SharedOf(env, x, y) <= hi
  }

  /** What the binary diagram accepts: at most c positions on in both x and y
      (SharedOf), the lex relation when one
      is chosen, |x| = |y| = card when card > -1, and the fixed value of each
      assigned view. */
  lemma BinaryPredMeaning(x: View, y: View, c: int, lex: Option<CpltSetRelType>, card: int, env: Env)
    requires x.Valid() && y.Valid()
    ensures BinaryPred(x, y, c, lex, card)(env) <==>
            && SharedOf(env, x, y) <= c
            && (lex.Some? ==> OrderHolds(lex.value.order, Word(env, x.offset, x.width, lex.value.dir),
                                         Word(env, y.offset, x.width, lex.value.dir)))
            && (card > -1 ==> CardOf(env, x) == card && CardOf(env, y) == card)
            && (x.Assigned() ==> ValueOf(env, x) == x.glb)
            && (y.Assigned() ==> ValueOf(env, y) == y.glb)
  {
    if lex.Some? {
      LexConjunctMeaning(lex.value, x, y, env);
    }
    if x.Assigned() {
      DomainMeaning(x, env);
    }
    if y.Assigned() {
      DomainMeaning(y, env);
    }
  }

  /** The bit count of a view is the size of the set the view takes. */
  lemma CardOfIsSize(env: Env, x: View)
    ensures CardOf(env, x) == |ValueOf(env, x)|
  {
    assert ValueOf(env, x) == OnValues(env, x.offset, x.mgrMin, x.width);
    PopCountIsSize(env, x.offset, x.mgrMin, x.width);
  }

  /** For two views over the same universe, the position-wise count of
      extcardcheck is the number of values the two sets have in common. */
  lemma SharedOfIsSize(env: Env, x: View, y: View)
    requires x.mgrMin == y.mgrMin && x.width == y.width
    ensures SharedOf(env, x, y) == |ValueOf(env, x) * ValueOf(env, y)|
  {
    assert ValueOf(env, x) * ValueOf(env, y) == BothOnValues(env, x.offset, y.offset, x.mgrMin, x.width);
    InterCountIsSize(env, x.offset, y.offset, x.mgrMin, x.width);
  }

  /** The binary diagram in terms of the values the two sets take, for views
      over the same universe: at most c common elements, the lex relation,
      both sets of size card when card > -1, and the fixed value of each
      assigned view. */
  lemma BinaryPredValues(x: View, y: View, c: int, lex: Option<CpltSetRelType>, card: int, env: Env)
    requires x.Valid() && y.Valid()
    requires x.mgrMin == y.mgrMin && x.width == y.width
    ensures BinaryPred(x, y, c, lex, card)(env) <==>
            && |ValueOf(env, x) * ValueOf(env, y)| <= c
            && (lex.Some? ==> OrderHolds(lex.value.order, Word(env, x.offset, x.width, lex.value.dir),
                                         Word(env, y.offset, x.width, lex.value.dir)))
            && (card > -1 ==> |ValueOf(env, x)| == card && |ValueOf(env, y)| == card)
            && (x.Assigned() ==> ValueOf(env, x) == x.glb)
            && (y.Assigned() ==> ValueOf(env, y) == y.glb)
  {
    BinaryPredMeaning(x, y, c, lex, card, env);
    SharedOfIsSize(env, x, y);
    CardOfIsSize(env, x);
    CardOfIsSize(env, y);
  }

  /** bdd_domain() holds of an assignment exactly when it gives the variable
      the value glb. */
  lemma DomainMeaning(x: View, env: Env)
    requires x.Valid()
    ensures x.BddDomain()(env) <==> ValueOf(env, x) == x.glb
  {
    if x.BddDomain()(env) {
      forall v ensures v in ValueOf(env, x) <==> v in x.glb {
        if x.mgrMin <= v < x.mgrMin + x.width {
          assert Bit(env, x.offset, v - x.mgrMin) == (x.mgrMin + (v - x.mgrMin) in x.glb);
        }
      }
    }
    if ValueOf(env, x) == x.glb {
      forall i | 0 <= i < x.width
        ensures Bit(env, x.offset, i) == (x.mgrMin + i in x.glb)
      {
        var v := x.mgrMin + i;
        assert Holds(env, x, v) <==> v in ValueOf(env, x);
      }
    }
  }

  /** atmost_post for two views (both overloads): nothing on a failed space,
      otherwise the binary diagram is posted. */
  method AtmostBinaryPost(home: Space, x: View, y: View, c: int, lex: Option<CpltSetRelType>,
                          card: int, accepted: bool)
    modifies home
    ensures old(home.failed) ==> home.Did(Nothing, accepted)
    ensures !old(home.failed) ==> home.Did(Post(Binary(x, y, BinaryPred(x, y, c, lex, card))), accepted)
  {
    if home.failed {
      return;
    }
    var d0 := BinaryPred(x, y, c, lex, card);
    home.Post(Binary(x, y, d0), accepted);
  }

  // ---------------------------------------------------------------------------
  // Ternary constraints: atmost_post(home, x, c, lex, card) over three views

  /** The links z_i <-> (x_i & y_i) for the bits lo <= i < hi. */
  function IntersectionLinks(x: View, y: View, z: View, lo: nat, hi: nat): Bdd
    decreases hi - lo
  {
    if lo >= hi then BddTrue()
    else And(Biimp(And(x.GetBdd(lo), y.GetBdd(lo)), z.GetBdd(lo)), IntersectionLinks(x, y, z, lo + 1, hi))
  }

  /** The links hold exactly when z holds the bitwise AND of x and y there. */
  lemma {:induction false} IntersectionLinksMeaning(x: View, y: View, z: View, lo: nat, hi: nat, env: Env)
    ensures IntersectionLinks(x, y, z, lo, hi)(env) <==>
            forall i :: lo <= i < hi ==> Bit(env, z.offset, i) == (Bit(env, x.offset, i) && Bit(env, y.offset, i))
    decreases hi - lo
  {
    if lo < hi {
      IntersectionLinksMeaning(x, y, z, lo + 1, hi, env);
      assert IntersectionLinks(x, y, z, lo, hi)(env) ==
             ((Bit(env, x.offset, lo) && Bit(env, y.offset, lo)) == Bit(env, z.offset, lo)
              && IntersectionLinks(x, y, z, lo + 1, hi)(env));
    }
  }

  /** The diagram of the ternary overloads over views x, y, z: z is x ∩ y on
      y's bits, |z| <= c, and the lex relation between x and y when one is
      chosen (lex is None for the SetRelType overload). `card` is never read. */
  function TernaryPred(x: View, y: View, z: View, c: int, lex: Option<CpltSetRelType>): Bdd {
    var d0 := And(IntersectionLinks(x, y, z, 0, y.width), CardCheck(z.width, z.offset, 0, c));
    if lex.Some? then And(d0, LexConjunct(lex.value, x, y)) else d0
  }

  /** The conjunction the ternary atmost_post builds, bit by bit from the top
      bit of y down, then the bound on z, then the lex conjunct. */
  method BuildTernary(x: View, y: View, z: View, c: int, lex: Option<CpltSetRelType>) returns (d0: Bdd)
    ensures Same(d0, TernaryPred(x, y, z, c, lex))
  {
    d0 := BddTrue();
    var i := y.width;
    while i > 0
      invariant 0 <= i <= y.width
      invariant Same(d0, IntersectionLinks(x, y, z, i, y.width))
    {
      i := i - 1;
      d0 := And(d0, Biimp(And(x.GetBdd(i), y.GetBdd(i)), z.GetBdd(i)));
    }
    var c0 := CardCheck(z.width, z.offset, 0, c);
    d0 := And(d0, c0);
    if lex.Some? {
      d0 := And(d0, LexConjunct(lex.value, x, y));
    }
  }

  /** What the ternary diagram accepts. */
  lemma TernaryMeaning(x: View, y: View, z: View, c: int, lex: Option<CpltSetRelType>, env: Env)
    ensures TernaryPred(x, y, z, c, lex)(env) <==>
            && (forall i :: 0 <= i < y.width ==>
                  Bit(env, z.offset, i) == (Bit(env, x.offset, i) && Bit(env, y.offset, i)))
            && CardOf(env, z) <= c
            && (lex.Some? ==> OrderHolds(lex.value.order, Word(env, x.offset, x.width, lex.value.dir),
                                         Word(env, y.offset, x.width, lex.value.dir)))
  {
    IntersectionLinksMeaning(x, y, z, 0, y.width, env);
    if lex.Some? {
      LexConjunctMeaning(lex.value, x, y, env);
    }
  }

  /** With three views of one width, the ternary diagram bounds the
      position-wise intersection of x and y by c, and with z set to x ∩ y any
      such bound is accepted: it is the binary bound with z made explicit. */
  lemma TernaryBoundsIntersection(x: View, y: View, z: View, c: int, env: Env)
    requires x.width == y.width == z.width
    ensures TernaryPred(x, y, z, c, None)(env) ==> SharedOf(env, x, y) <= c
    ensures (forall i :: 0 <= i < y.width ==>
               Bit(env, z.offset, i) == (Bit(env, x.offset, i) && Bit(env, y.offset, i)))
            ==> (TernaryPred(x, y, z, c, None)(env) <==> SharedOf(env, x, y) <= c)
  {
    TernaryMeaning(x, y, z, c, None, env);
    if forall i :: 0 <= i < y.width ==>
         Bit(env, z.offset, i) == (Bit(env, x.offset, i) && Bit(env, y.offset, i))
    {
      PopCountOfLinked(env, x.offset, y.offset, z.offset, y.width);
    }
  }

  /** atmost_post for three views (both overloads). */
  method AtmostTernaryPost(home: Space, x: View, y: View, z: View, c: int, lex: Option<CpltSetRelType>,
                           card: int, accepted: bool)
    modifies home
    ensures old(home.failed) ==> home.Did(Nothing, accepted)
    ensures !old(home.failed) ==> home.Did(Post(Nary([x, y, z], TernaryPred(x, y, z, c, lex))), accepted)
  {
    if home.failed {
      return;
    }
    var d0 := BuildTernary(x, y, z, c, lex);
    home.Post(Nary([x, y, z], d0), accepted);
  }

  // ---------------------------------------------------------------------------
  // atmostOne_post

  /** |xs[k]| = c for the first k views. */
  function CardAll(xs: seq<View>, c: int, k: nat): Bdd
    requires k <= |xs|
  {
    if k == 0 then BddTrue() else And(CardAll(xs, c, k - 1), CardCheck(xs[k - 1].width, xs[k - 1].offset, c, c))
  }

  /** At most one common position on between xs[i] and xs[j'], for i < j' < j. */
  function Row(xs: seq<View>, i: nat, j: nat): Bdd
    requires i < |xs| && j <= |xs|
  {
    if j <= i + 1 then BddTrue() else And(Row(xs, i, j - 1), ExtCardCheck(xs[i], xs[j - 1], 0, 1))
  }

  /** The complete rows of all views before i. */
  function Rows(xs: seq<View>, i: nat): Bdd
    requires i <= |xs|
  {
    if i == 0 then BddTrue() else And(Rows(xs, i - 1), Row(xs, i - 1, |xs|))
  }

  /** The diagram atmostOne_post builds. */
  function AtmostOnePred(xs: seq<View>, c: int): Bdd {
    And(CardAll(xs, c, |xs|), Rows(xs, |xs|))
  }

  /** The conjunction atmostOne_post builds: first a cardinality conjunct per
      view, then one intersection conjunct per pair i < j. The ghost `pairs`
      counts the pairwise conjuncts: n(n-1)/2 of them. */
  method BuildAtmostOne(xs: seq<View>, c: int) returns (d0: Bdd, ghost pairs: nat)
    ensures Same(d0, AtmostOnePred(xs, c))
    ensures pairs == |xs| * (|xs| - 1) / 2
  {
    var n := |xs|;
    d0 := BddTrue();
    var i := 0;
    while i < n
      invariant 0 <= i <= n
      invariant Same(d0, CardAll(xs, c, i))
    {
      d0 := And(d0, CardCheck(xs[i].width, xs[i].offset, c, c));
      i := i + 1;
    }
    pairs := 0;
    i := 0;
    while i < n - 1
      invariant 0 <= i <= n
      invariant n > 0 ==> i <= n - 1
      invariant Same(d0, And(CardAll(xs, c, n), Rows(xs, i)))
      invariant 2 * pairs == i * (2 * n - i - 1)
    {
      var j := i + 1;
      while j < n
        invariant i + 1 <= j <= n
        invariant Same(d0, And(And(CardAll(xs, c, n), Rows(xs, i)), Row(xs, i, j)))
        invariant 2 * pairs == i * (2 * n - i - 1) + 2 * (j - i - 1)
      {
        d0 := And(d0, ExtCardCheck(xs[i], xs[j], 0, 1));
        j := j + 1;
        pairs := pairs + 1;
      }
      assert 2 * pairs == (i + 1) * (2 * n - (i + 1) - 1);
      i := i + 1;
    }
    if n > 0 {
      assert Row(xs, n - 1, n) == BddTrue();
      assert i == n - 1;
    }
    assert 2 * pairs == n * (n - 1);
  }

  /** The first k cardinality conjuncts hold exactly when those views have c elements. */
  lemma {:induction false} CardAllMeaning(xs: seq<View>, c: int, k: nat, env: Env)
    requires k <= |xs|
    ensures CardAll(xs, c, k)(env) <==> forall i :: 0 <= i < k ==> CardOf(env, xs[i]) == c
  {
    if k > 0 {
      CardAllMeaning(xs, c, k - 1, env);
    }
  }

  lemma {:induction false} RowMeaning(xs: seq<View>, i: nat, j: nat, env: Env)
    requires i < |xs| && j <= |xs|
    ensures Row(xs, i, j)(env) <==> RowOk(env, xs, i, j)
  {
    if j > i + 1 {
      RowMeaning(xs, i, j - 1, env);
    }
  }

  lemma {:induction false} RowsMeaning(xs: seq<View>, i: nat, env: Env)
    requires i <= |xs|
    ensures Rows(xs, i)(env) <==> PairsBelow(env, xs, i)
  {
    if i > 0 {
      RowsStep(xs, i, env);
      RowsMeaning(xs, i - 1, env);
      RowMeaning(xs, i - 1, |xs|, env);
      PairsBelowStep(env, xs, i);
    }
  }

  lemma RowsStep(xs: seq<View>, i: nat, env: Env)
    requires 0 < i <= |xs|
    ensures Rows(xs, i)(env) == (Rows(xs, i - 1)(env) && Row(xs, i - 1, |xs|)(env))
  {
  }

  /** The pairs that start before i are those that start before i - 1 and
      the row of view i - 1. */
  lemma PairsBelowStep(env: Env, xs: seq<View>, i: nat)
    requires 0 < i <= |xs|
    ensures PairsBelow(env, xs, i) <==> PairsBelow(env, xs, i - 1) && RowOk(env, xs, i - 1, |xs|)
  {
    if PairsBelow(env, xs, i) {
      forall k | i - 1 < k < |xs| ensures SharedOf(env, xs[i - 1], xs[k]) <= 1 {
      }
    }
  }

  /** View i has at most one common position on with each view after it, up to j. */
  ghost predicate RowOk(env: Env, xs: seq<View>, i: nat, j: nat)
    requires i < |xs| && j <= |xs|
  {
    forall k :: i < k < j ==> SharedOf(env, xs[i], xs[k]) <= 1
  }

  /** Every view before i has at most one common position on with every later view. */
  ghost predicate PairsBelow(env: Env, xs: seq<View>, i: nat) {
    forall a, b :: 0 <= a < i && a < b < |xs| ==> SharedOf(env, xs[a], xs[b]) <= 1
  }

  /** What atmostOne accepts: every view has exactly c bits on and every two
      views have at most one common position on (AtmostOneValues restates it
      on values). */
  lemma AtmostOneMeaning(xs: seq<View>, c: int, env: Env)
    ensures AtmostOnePred(xs, c)(env) <==>
            && (forall i :: 0 <= i < |xs| ==> CardOf(env, xs[i]) == c)
            && (forall i, j :: 0 <= i < j < |xs| ==> SharedOf(env, xs[i], xs[j]) <= 1)
  {
    CardAllMeaning(xs, c, |xs|, env);
    RowsMeaning(xs, |xs|, env);
  }

  /** atmostOne in terms of values, for views over one universe: every set
      has c elements and every two sets have at most one element in common. */
  lemma AtmostOneValues(xs: seq<View>, c: int, env: Env)
    requires forall i :: 0 <= i < |xs| ==> xs[i].mgrMin == xs[0].mgrMin && xs[i].width == xs[0].width
    ensures AtmostOnePred(xs, c)(env) <==>
            && (forall i :: 0 <= i < |xs| ==> |ValueOf(env, xs[i])| == c)
            && (forall i, j :: 0 <= i < j < |xs| ==> |ValueOf(env, xs[i]) * ValueOf(env, xs[j])| <= 1)
  {
    AtmostOneMeaning(xs, c, env);
    forall i | 0 <= i < |xs| ensures CardOf(env, xs[i]) == |ValueOf(env, xs[i])| {
      CardOfIsSize(env, xs[i]);
    }
    forall i, j | 0 <= i < j < |xs|
      ensures SharedOf(env, xs[i], xs[j]) == |ValueOf(env, xs[i]) * ValueOf(env, xs[j])|
    {
      SharedOfIsSize(env, xs[i], xs[j]);
    }
  }

  /** atmostOne_post: nothing on a failed space, otherwise the pairwise
      diagram is posted over all views. */
  method AtmostOnePost(home: Space, xs: seq<View>, c: int, accepted: bool)
    modifies home
    ensures old(home.failed) ==> home.Did(Nothing, accepted)
    ensures !old(home.failed) ==> home.Did(Post(Nary(xs, AtmostOnePred(xs, c))), accepted)
  {
    if home.failed {
      return;
    }
    var d0, pairs := BuildAtmostOne(xs, c);
    home.Post(Nary(xs, d0), accepted);
  }

  // ---------------------------------------------------------------------------
  // exactly and atmost over a set of values

  /** The branch `exactly(x, values, c)` takes on a space that has not failed. */
  ghost function ExactlyAction(x: View, values: set<int>, c: int): (r: Action)
    ensures r.Nothing? <==> |x.glb * values| == 1
    ensures r.FailSpace? <==> |x.glb * values| > 1 || (x.glb * values == {} && x.unknown * values == {})
    ensures r.Include? <==> x.glb * values == {} && |x.unknown * values| == 1
    ensures r.Include? ==> r.x == x && x.unknown * values == {r.v}
    ensures r.Post? <==> x.glb * values == {} && |x.unknown * values| > 1
    ensures r.Post? ==> r.p == Unary(x, CardConst(x.width, x.offset, x.mgrMin, c, c, x.unknown * values))
  {
    var inGlb := x.glb * values;
    if inGlb != {} then
      if |inGlb| == 1 then Nothing else FailSpace
    else
      var cand := x.unknown * values;
      if cand == {} then FailSpace
      else if |cand| == 1 then
        var v := TheElement(cand);
        Include(x, v)
      else Post(Unary(x, CardConst(x.width, x.offset, x.mgrMin, c, c, cand)))
  }

  lemma HasElement(s: set<int>)
    requires s != {}
    ensures exists v :: v in s
  {
    if forall v :: v !in s {
      assert false;
    }
  }

  /** The one element of a singleton set (interdel.min() when the
      intersection is a single value). */
  function TheElement(s: set<int>): (v: int)
    requires |s| == 1
    ensures s == {v}
  {
    HasElement(s);
    var v :| v in s;
    var rest := s - {v};
    assert s == rest + {v};
    assert |rest| == 0;
    v
  }

  /** exactly(home, x, is, c). */
  method Exactly(home: Space, x: View, values: set<int>, c: int, accepted: bool)
    modifies home
    ensures old(home.failed) ==> home.Did(Nothing, accepted)
    ensures !old(home.failed) ==> home.Did(ExactlyAction(x, values, c), accepted)
  {
    if home.failed {
      return;
    }
    var inGlb := x.glb * values;
    if inGlb != {} {
      if |inGlb| == 1 {
        return;
      } else {
        home.Fail();
        return;
      }
    }
    var cand := x.unknown * values;
    if cand == {} {
      home.Fail();
      return;
    }
    if |cand| == 1 {
      var v := TheElement(cand);
      home.Include(x, v);
      return;
    }
    var d := CardConst(x.width, x.offset, x.mgrMin, c, c, cand);
    home.Post(Unary(x, d), accepted);
  }

  /** On the posting path, an assignment that respects x's domain satisfies
      the posted diagram exactly when x then holds c values of `values`. */
  lemma ExactlyPostMeaning(x: View, values: set<int>, c: int, env: Env)
    requires Consistent(env, x)
    requires ExactlyAction(x, values, c).Post?
    ensures ExactlyAction(x, values, c).p.d(env) <==> |ValueOf(env, x) * values| == c
  {
    var cand := x.unknown * values;
    assert x.glb * values == {};
    var chosen := Chosen(env, x.offset, x.mgrMin, x.width, cand);
    forall v ensures v in chosen <==> v in ValueOf(env, x) * values {
      if v in ValueOf(env, x) * values {
        assert Holds(env, x, v);
        assert v !in x.glb * values;
      }
    }
    assert chosen == ValueOf(env, x) * values;
  }

  /** The glb shortcut returns with nothing posted when x already holds one
      value of `values`, whatever c is, though values of `values` still undecided
      remain free to join: some assignment that respects x's domain then
      gives x two or more values of `values`. */
  lemma GlbShortcutLeavesUnknownOpen(x: View, values: set<int>, c: int)
    requires x.Valid() && |x.glb * values| == 1 && x.unknown * values != {}
    ensures ExactlyAction(x, values, c).Nothing?
    ensures exists env :: Consistent(env, x) && |ValueOf(env, x) * values| >= 2
  {
    HasElement(x.glb * values);
    var g :| g in x.glb * values;
    HasElement(x.unknown * values);
    var u :| u in x.unknown * values;
    var env := WidestAssignment(x);
    assert Consistent(env, x);
    assert Holds(env, x, g) && Holds(env, x, u);
    TwoElements(ValueOf(env, x) * values, g, u);
    assert Consistent(env, x) && |ValueOf(env, x) * values| >= 2;
  }

  /** The assignment that puts every value still allowed into the set. */
  lemma WidestAssignment(x: View) returns (env: Env)
    ensures forall v :: Holds(env, x, v) <==> x.mgrMin <= v < x.mgrMin + x.width && (v in x.glb || v in x.unknown)
  {
    env := (k: int) => (k - x.offset + x.mgrMin) in x.glb || (k - x.offset + x.mgrMin) in x.unknown;
    forall v ensures Holds(env, x, v) <==> x.mgrMin <= v < x.mgrMin + x.width && (v in x.glb || v in x.unknown) {
      assert x.offset + (v - x.mgrMin) - x.offset + x.mgrMin == v;
    }
  }

  lemma TwoElements(s: set<int>, g: int, u: int)
    requires g in s && u in s && g != u
    ensures |s| >= 2
  {
    var rest := s - {g};
    assert s == rest + {g};
    assert u in rest;
  }

  /** The diagram atmost(home, x, is, c) posts. */
  function AtmostSetPred(x: View, values: set<int>, c: int): Bdd {
    CardConst(x.width, x.offset, x.mgrMin, 0, c, values)
  }

  /** It accepts exactly the assignments that give x at most c values of `values`. */
  lemma AtmostSetMeaning(x: View, values: set<int>, c: int, env: Env)
    ensures AtmostSetPred(x, values, c)(env) <==> |ValueOf(env, x) * values| <= c
  {
    assert Chosen(env, x.offset, x.mgrMin, x.width, values) == ValueOf(env, x) * values;
  }

  /** atmost(home, x, is, c). */
  method AtmostSet(home: Space, x: View, values: set<int>, c: int, accepted: bool)
    modifies home
    ensures old(home.failed) ==> home.Did(Nothing, accepted)
    ensures !old(home.failed) ==> home.Did(Post(Unary(x, AtmostSetPred(x, values, c))), accepted)
  {
    if home.failed {
      return;
    }
    var d := CardConst(x.width, x.offset, x.mgrMin, 0, c, values);
    home.Post(Unary(x, d), accepted);
  }

  // ---------------------------------------------------------------------------
  // Public entry points over two and three variables

  /** atmost(home, x, y, c): SRT_EQ selects the overload without lex, card -1. */
  method Atmost(home: Space, x: View, y: View, c: int, accepted: bool)
    modifies home
    ensures old(home.failed) ==> home.Did(Nothing, accepted)
    ensures !old(home.failed) ==> home.Did(Post(Binary(x, y, BinaryPred(x, y, c, None, -1))), accepted)
  {
    AtmostBinaryPost(home, x, y, c, None, -1, accepted);
  }

  /** atmostLex(home, x, y, c, lex). */
  method AtmostLex(home: Space, x: View, y: View, c: int, lex: CpltSetRelType, accepted: bool)
    modifies home
    ensures old(home.failed) ==> home.Did(Nothing, accepted)
    ensures !old(home.failed) ==> home.Did(Post(Binary(x, y, BinaryPred(x, y, c, Some(lex), -1))), accepted)
  {
    AtmostBinaryPost(home, x, y, c, Some(lex), -1, accepted);
  }

  /** atmostLexCard(home, x, y, c, lex, d). */
  method AtmostLexCard(home: Space, x: View, y: View, c: int, lex: CpltSetRelType, d: int, accepted: bool)
    modifies home
    ensures old(home.failed) ==> home.Did(Nothing, accepted)
    ensures !old(home.failed) ==> home.Did(Post(Binary(x, y, BinaryPred(x, y, c, Some(lex), d))), accepted)
  {
    AtmostBinaryPost(home, x, y, c, Some(lex), d, accepted);
  }

  /** atmostCard(home, x, y, c, d): SRT_EQ selects the overload without lex. */
  method AtmostCard(home: Space, x: View, y: View, c: int, d: int, accepted: bool)
    modifies home
    ensures old(home.failed) ==> home.Did(Nothing, accepted)
    ensures !old(home.failed) ==> home.Did(Post(Binary(x, y, BinaryPred(x, y, c, None, d))), accepted)
  {
    AtmostBinaryPost(home, x, y, c, None, d, accepted);
  }

  /** atmost(home, x, y, z, c): SRT_EQ selects the ternary overload without lex. */
  method AtmostTernary(home: Space, x: View, y: View, z: View, c: int, accepted: bool)
    modifies home
    ensures old(home.failed) ==> home.Did(Nothing, accepted)
    ensures !old(home.failed) ==> home.Did(Post(Nary([x, y, z], TernaryPred(x, y, z, c, None))), accepted)
  {
    AtmostTernaryPost(home, x, y, z, c, None, -1, accepted);
  }

  /** atmostOne(home, xs, c). */
  method AtmostOne(home: Space, xs: seq<View>, c: int, accepted: bool)
    modifies home
    ensures old(home.failed) ==> home.Did(Nothing, accepted)
    ensures !old(home.failed) ==> home.Did(Post(Nary(xs, AtmostOnePred(xs, c))), accepted)
  {
    AtmostOnePost(home, xs, c, accepted);
  }
}
