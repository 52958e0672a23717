/** What the set constraints see of the solver: complete set views, the
    propagators a constraint posts, and the space they are posted in. */
module CpltSetSpace {
  import opened CpltSetBdd

  /** A complete set view. Its variable ranges over subsets of the values
      [mgrMin, mgrMin + width); bit i of the range at `offset` stands for value
      mgrMin + i. `glb` holds the values known to be in the set, `unknown` the
      values not yet decided. */
  datatype View = View(offset: nat, width: nat, mgrMin: int, glb: set<int>, unknown: set<int>)
  {
    /** mgr_max() */
    function MgrMax(): int { mgrMin + width - 1 }

    /** Values outside glb and unknown are excluded; both lie in the universe. */
    ghost predicate Valid() {
      && glb !! unknown
      && (forall v :: v in glb ==> mgrMin <= v < mgrMin + width)
      && (forall v :: v in unknown ==> mgrMin <= v < mgrMin + width)
    }

    /** assigned(): no value is left undecided. */
    predicate Assigned() { unknown == {} }

    /** getbdd(i): the diagram of bit i. */
    function GetBdd(i: int): Bdd { BddVar(offset + i) }

    /** bdd_domain(): the bits spell out exactly the values in glb. */
    function BddDomain(): Bdd {
      (env: Env) => forall i :: 0 <= i < width ==> Bit(env, offset, i) == (mgrMin + i in glb)
    }
  }

  /** Value v is in the set an assignment gives to the view's variable. */
  ghost predicate Holds(env: Env, x: View, v: int) {
    x.mgrMin <= v < x.mgrMin + x.width && Bit(env, x.offset, v - x.mgrMin)
  }

  /** The set an assignment gives to the view's variable. */
  ghost function ValueOf(env: Env, x: View): set<int> {
    set v | x.mgrMin <= v < x.mgrMin + x.width && Holds(env, x, v)
  }

  /** An assignment that respects the view's current domain. */
  ghost predicate Consistent(env: Env, x: View) {
    && (forall v :: v in x.glb ==> Holds(env, x, v))
    && (forall v :: Holds(env, x, v) ==> v in x.glb || v in x.unknown)
  }

  /** A posted propagator and the diagram it propagates. */
  datatype Propagator =
    | Unary(x: View, d: Bdd)
    | Binary(x: View, y: View, d: Bdd)
    | Nary(xs: seq<View>, d: Bdd)

  /** Two propagators over the same views with the same diagram. */
  ghost predicate SamePropagator(p: Propagator, q: Propagator) {
    match p
    case Unary(x, d) => q.Unary? && q.x == x && Same(q.d, d)
    case Binary(x, y, d) => q.Binary? && q.x == x && q.y == y && Same(q.d, d)
    case Nary(xs, d) => q.Nary? && q.xs == xs && Same(q.d, d)
  }

  /** A value forced into a view's variable. */
  datatype Inclusion = Inclusion(x: View, v: int)

  /** What a constraint entry point does to its space. */
  datatype Action =
    | Nothing
    | FailSpace
    | Include(x: View, v: int)
    | Post(p: Propagator)

  /** The space a constraint is posted in: whether it has failed, the
      propagators posted in it and the values forced into its variables. */
  class Space {
    var failed: bool
    var props: seq<Propagator>
    var includes: seq<Inclusion>

    constructor ()
      ensures !failed && props == [] && includes == []
    {
      failed, props, includes := false, [], [];
    }

    /** The space went through action a; `accepted` is the outcome the
        propagator's own post reports. */
    twostate predicate Did(a: Action, accepted: bool)
      reads this
    {
      match a
      case Nothing =>
        failed == old(failed) && props == old(props) && includes == old(includes)
      case FailSpace =>
        failed && props == old(props) && includes == old(includes)
      case Include(x, v) =>
        && props == old(props)
        && if v in x.glb || v in x.unknown then
             failed == old(failed) && includes == old(includes) + [Inclusion(x, v)]
           else
             failed && includes == old(includes)
      case Post(p) =>
        && includes == old(includes)
        && if accepted then
             && failed == old(failed)
             && |props| == |old(props)| + 1
             && props[..|old(props)|] == old(props)
             && SamePropagator(props[|old(props)|], p)
           else
             failed && props == old(props)
    }

    /** home->fail() */
    method Fail()
      modifies this
      ensures Did(FailSpace, true)
    {
      failed := true;
    }

    /** x.include(home, v) under GECODE_ME_FAIL: forcing a value the domain
        still allows succeeds, any other fails the space. */
    method Include(x: View, v: int)
      modifies this
      ensures Did(Action.Include(x, v), true)
    {
      if v in x.glb || v in x.unknown {
        includes := includes + [Inclusion(x, v)];
      } else {
        failed := true;
      }
    }

    /** A propagator's post under GECODE_ES_FAIL: the propagator is added when
        its post succeeds and the space fails otherwise. */
    method Post(p: Propagator, accepted: bool)
      modifies this
      ensures Did(Action.Post(p), accepted)
    {
      if accepted {
        props := props + [p];
      } else {
        failed := true;
      }
    }
  }
}
