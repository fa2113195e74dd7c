/** The lattice of include/SpecValueLattice.h.

    `Value` is what an element means; `SpecValueLatticeElement` is the mutable object with its
    tag, shadow tag, widening counter and payload. Its methods follow the branches of the source
    and are specified by `Join`, the least upper bound of the meanings.

    ConstantRange is taken as a non-wrapping interval of one integer type, so that a union is the
    interval hull. */
module SpecValueLattice {

  /** The integers lo..hi (both included) of the integer type with `size` values, that is 2 to the
      power of its width; never empty. */
  datatype ConstantRange = ConstantRange(size: nat, lo: nat, hi: nat) {
    ghost predicate Valid() {
      lo <= hi < size
    }

    predicate IsFullSet() {
      lo == 0 && hi == size - 1
    }

    predicate IsSingleElement() {
      lo == hi
    }

    predicate Contains(x: nat) {
      lo <= x <= hi
    }

    function UnionWith(other: ConstantRange): (r: ConstantRange)
      requires size == other.size
    {
      ConstantRange(size, if lo <= other.lo then lo else other.lo, if hi >= other.hi then hi else other.hi)
    }
  }

  /** A compile-time constant: an integer, undef, or anything else (named by an id). */
  datatype Constant = IntConstant(size: nat, value: nat) | UndefConstant | OtherConstant(id: nat)

  /** What a lattice element means. Integer constants are single-element ranges. */
  datatype Value =
    | Unknown
    | Undef
    | Const(c: Constant)
    | NotConst(c: Constant)
    | Range(r: ConstantRange)
    | RangeOrUndef(r: ConstantRange)
    | Overdefined
  {
    ghost predicate Valid() {
      (HasRange() ==> r.Valid() && !r.IsFullSet()) &&
      (Const? || NotConst? ==> c.OtherConstant?)
    }

    predicate HasRange() {
      Range? || RangeOrUndef?
    }

    predicate IsUnknownOrUndef() {
      Unknown? || Undef?
    }

    /** Exactly one integer constant. */
    predicate IsIntConstant() {
      HasRange() && r.IsSingleElement()
    }
  }

  /** Two elements can meet when their ranges, if both have one, are of the same type. */
  predicate Compatible(a: Value, b: Value) {
    a.HasRange() && b.HasRange() ==> a.r.size == b.r.size
  }

  function RangeValue(r: ConstantRange, orUndef: bool): Value {
    if r.IsFullSet() then Overdefined else if orUndef then RangeOrUndef(r) else Range(r)
  }

  /** The least upper bound. */
  function Join(a: Value, b: Value): Value
    requires Compatible(a, b)
  {
    if a == b || b.Unknown? then a
    else if a.Unknown? then b
    else if a.HasRange() && b.HasRange() then RangeValue(a.r.UnionWith(b.r), a.RangeOrUndef? || b.RangeOrUndef?)
    else if a.Undef? && (b.Const? || b.RangeOrUndef?) then b
    else if b.Undef? && (a.Const? || a.RangeOrUndef?) then a
    else if a.Undef? && b.Range? then RangeOrUndef(b.r)
    else if b.Undef? && a.Range? then RangeOrUndef(a.r)
    else Overdefined
  }

  ghost predicate Leq(a: Value, b: Value) {
    Compatible(a, b) && Join(a, b) == b
  }

  /** The integers an element allows at run time, in a program that computes no undef. */
  predicate InGamma(x: nat, v: Value) {
    v.Overdefined? || (v.HasRange() && v.r.Contains(x))
  }

  // ----- the laws of the lattice -----

  lemma JoinValid(a: Value, b: Value)
    requires a.Valid() && b.Valid() && Compatible(a, b)
    ensures Join(a, b).Valid()
    ensures Join(a, b).HasRange() ==>
      (a.HasRange() && a.r.size == Join(a, b).r.size) || (b.HasRange() && b.r.size == Join(a, b).r.size)
  {
  }

  lemma HullAssociative(a: ConstantRange, b: ConstantRange, c: ConstantRange)
    requires a.size == b.size == c.size && a.Valid() && b.Valid() && c.Valid()
    ensures a.UnionWith(b).UnionWith(c) == a.UnionWith(b.UnionWith(c))
    ensures a.UnionWith(b).IsFullSet() || b.UnionWith(c).IsFullSet() ==> a.UnionWith(b).UnionWith(c).IsFullSet()
  {
  }

  lemma JoinAssociative(a: Value, b: Value, c: Value)
    requires a.Valid() && b.Valid() && c.Valid()
    requires Compatible(a, b) && Compatible(b, c) && Compatible(a, c)
    ensures Compatible(Join(a, b), c) && Compatible(a, Join(b, c))
    ensures Join(Join(a, b), c) == Join(a, Join(b, c))
  {
    if a.HasRange() && b.HasRange() {
      JoinAssociativeRanges(a, b, c);
    } else if a.HasRange() {
      JoinAssociativeRangeFirst(a, b, c);
    } else {
      JoinAssociativeOther(a, b, c);
    }
  }

  lemma JoinAssociativeRanges(a: Value, b: Value, c: Value)
    requires a.Valid() && b.Valid() && c.Valid() && a.HasRange() && b.HasRange()
    requires Compatible(a, b) && Compatible(b, c) && Compatible(a, c)
    ensures Compatible(Join(a, b), c) && Compatible(a, Join(b, c))
    ensures Join(Join(a, b), c) == Join(a, Join(b, c))
  {
    if c.HasRange() {
      HullAssociative(a.r, b.r, c.r);
    }
  }

  lemma JoinAssociativeRangeFirst(a: Value, b: Value, c: Value)
    requires a.Valid() && b.Valid() && c.Valid() && a.HasRange() && !b.HasRange()
    requires Compatible(a, b) && Compatible(b, c) && Compatible(a, c)
    ensures Compatible(Join(a, b), c) && Compatible(a, Join(b, c))
    ensures Join(Join(a, b), c) == Join(a, Join(b, c))
  {
  }

  lemma JoinAssociativeOther(a: Value, b: Value, c: Value)
    requires a.Valid() && b.Valid() && c.Valid() && !a.HasRange()
    requires Compatible(a, b) && Compatible(b, c) && Compatible(a, c)
    ensures Compatible(Join(a, b), c) && Compatible(a, Join(b, c))
    ensures Join(Join(a, b), c) == Join(a, Join(b, c))
  {
  }

  /** Join is commutative and idempotent, and the least upper bound of the partial order it induces. */
  lemma JoinIsLeastUpperBound(a: Value, b: Value, c: Value)
    requires a.Valid() && b.Valid() && c.Valid()
    requires Compatible(a, b) && Compatible(b, c) && Compatible(a, c)
    ensures Join(a, b) == Join(b, a) && Join(a, a) == a
    ensures Leq(a, Join(a, b)) && Leq(b, Join(a, b))
    ensures Leq(a, c) && Leq(b, c) ==> Leq(Join(a, b), c)
    ensures Leq(a, b) && Leq(b, c) ==> Leq(a, c)
    ensures Leq(a, b) && Leq(b, a) ==> a == b
  {
    JoinAssociative(a, b, c);
    JoinAssociative(a, a, b);
    JoinAssociative(a, b, b);
  }

  /** A larger element allows more integers. */
  lemma GammaMonotone(x: nat, a: Value, b: Value)
    requires a.Valid() && b.Valid() && Leq(a, b) && InGamma(x, a)
    ensures InGamma(x, b)
  {
  }

  /** What may be found in a variable. */
  datatype Outcome = IntOutcome(n: nat) | UndefOutcome | OtherOutcome(id: nat)

  /** The outcomes an element stands for; undef may turn out to be any plain constant. */
  predicate Includes(v: Value, o: Outcome) {
    match v
    case Unknown => false
    case Undef => o.UndefOutcome?
    case Const(c) => o.UndefOutcome? || (c.OtherConstant? && o == OtherOutcome(c.id))
    case NotConst(c) => !(c.OtherConstant? && o == OtherOutcome(c.id))
    case Range(r) => o.IntOutcome? && r.Contains(o.n)
    case RangeOrUndef(r) => o.UndefOutcome? || (o.IntOutcome? && r.Contains(o.n))
    case Overdefined => true
  }

  /** The order is that of what the elements stand for. An element that excludes a constant is above itself and the
      unknown one only. */
  lemma LeqIsContainment(a: Value, b: Value)
    requires a.Valid() && b.Valid() && Compatible(a, b)
    ensures !a.NotConst? && !b.NotConst? ==> (Leq(a, b) <==> forall o | Includes(a, o) :: Includes(b, o))
    ensures b.NotConst? ==> (Leq(a, b) <==> a.Unknown? || a == b)
    ensures a.NotConst? ==> (Leq(a, b) <==> b.Overdefined? || a == b)
  {
    if a.HasRange() {
      assert Includes(a, IntOutcome(a.r.lo)) && Includes(a, IntOutcome(a.r.hi));
    }
    if a.Const? {
      assert Includes(a, OtherOutcome(a.c.id));
    }
    if a.Const? || a.Undef? || a.RangeOrUndef? {
      assert Includes(a, UndefOutcome);
    }
    if a.Overdefined? && !b.Overdefined? {
      assert Includes(a, UndefOutcome);
      assert Includes(a, IntOutcome(0)) && Includes(a, OtherOutcome(if b.Const? then b.c.id + 1 else 0));
    }
  }

  /** Two ranges join to the integers from their least to their largest bound; all integers of the type together are
      overdefined. */
  lemma RangesJoinToHull(a: ConstantRange, b: ConstantRange)
    requires a.Valid() && b.Valid() && a.size == b.size && !a.IsFullSet() && !b.IsFullSet()
    ensures Leq(Range(a), Range(b)) <==> b.lo <= a.lo && a.hi <= b.hi
    ensures
      var lo := if a.lo <= b.lo then a.lo else b.lo;
      var hi := if a.hi >= b.hi then a.hi else b.hi;
      Join(Range(a), Range(b)) == if lo == 0 && hi == a.size - 1 then Overdefined
        else Range(ConstantRange(a.size, lo, hi))
  {
  }

  /** How far an element of the given type can still rise. */
  function Height(v: Value, size: nat): nat {
    match v
    case Unknown => 2 * size + 2
    case Undef => 2 * size + 1
    case Const(_) => 1
    case NotConst(_) => 1
    case Range(r) => if r.hi - r.lo + 1 < size then 2 * (size - (r.hi - r.lo + 1)) + 1 else 0
    case RangeOrUndef(r) => if r.hi - r.lo + 1 < size then 2 * (size - (r.hi - r.lo + 1)) else 0
    case Overdefined => 0
  }

  /** Every strict rise uses up height: the lattice of a fixed type has no infinite ascending chain. */
  lemma HeightDrops(a: Value, b: Value, size: nat)
    requires a.Valid() && b.Valid() && Leq(a, b) && a != b && size >= 1
    requires a.HasRange() ==> a.r.size == size
    requires b.HasRange() ==> b.r.size == size
    ensures Height(b, size) < Height(a, size)
  {
  }

  // ----- the mutable element -----

  datatype Tag =
    | TagUnknown | TagUndef | TagConstant | TagSpecConstant | TagNotConstant
    | TagConstantRange | TagConstantRangeIncludingUndef | TagOverdefined

  /** A copy of an element: its meaning, whether its shadow tag says speculative, and its counter. */
  datatype Snapshot = Snapshot(value: Value, speculative: bool, extensions: nat)

  datatype MergeOptions = MergeOptions(mayIncludeUndef: bool, checkWiden: bool, maxWidenSteps: nat)

  const PLAIN_MERGE := MergeOptions(false, false, 1)

  /** The counter is an eight-bit field. */
  function ToByte(n: nat): (r: nat)
    ensures r < 256 && (n < 256 ==> r == n)
  {
    if n < 256 then n else n % 256
  }

  /** Merging b into a would extend a's range past the number of widening steps allowed. */
  predicate Widens(a: Value, b: Value, extensions: nat, opts: MergeOptions)
    requires Compatible(a, b)
  {
    opts.checkWiden && Extends(a, b) && ToByte(extensions + 1) > opts.maxWidenSteps
  }

  /** Merging b into a replaces a's range by a larger one that is not the full set. */
  predicate Extends(a: Value, b: Value)
    requires Compatible(a, b)
  {
    a.HasRange() && b.HasRange() && a.r.UnionWith(b.r) != a.r && !a.r.UnionWith(b.r).IsFullSet()
  }

  /** The widening counter after b is merged into a: an element that first gets its range takes the
      counter of the range it copies, and every extension under a widening limit counts one. */
  function ExtensionsAfter(a: Snapshot, b: Snapshot, opts: MergeOptions): nat
    requires Compatible(a.value, b.value)
  {
    if a.value.Unknown? && b.value.HasRange() then b.extensions
    else if a.value.Unknown? && !b.value.Unknown? && !b.value.Overdefined? then 0
    else if a.value.Undef? && b.value.HasRange() then 0
    else if opts.checkWiden && Extends(a.value, b.value) then ToByte(a.extensions + 1)
    else a.extensions
  }

  class SpecValueLatticeElement {
    var tag: Tag
    var shadowTag: Tag
    var numRangeExtensions: nat
    var constVal: Constant
    var range: ConstantRange

    ghost predicate Valid()
      reads this
    {
      && Value().Valid()
      && numRangeExtensions < 256
      && tag != TagSpecConstant
    }

    function Value(): Value
      reads this
    {
      match tag
      case TagUnknown => Unknown
      case TagUndef => Undef
      case TagConstant => Const(constVal)
      case TagSpecConstant => Const(constVal)
      case TagNotConstant => NotConst(constVal)
      case TagConstantRange => Range(range)
      case TagConstantRangeIncludingUndef => RangeOrUndef(range)
      case TagOverdefined => Overdefined
    }

    predicate Speculative()
      reads this
    {
      shadowTag == TagSpecConstant
    }

    function State(): Snapshot
      reads this
    {
      Snapshot(Value(), Speculative(), numRangeExtensions)
    }

    /** The default element: unknown. */
    constructor ()
      ensures Valid() && State() == Snapshot(Unknown, false, 0)
    {
      tag, shadowTag, numRangeExtensions := TagUnknown, TagUnknown, 0;
      constVal, range := UndefConstant, ConstantRange(0, 0, 0);
    }

    /** The element a map entry holds, exactly as it was left there. */
    constructor Reference(s: Snapshot)
      requires s.value.Valid() && s.extensions < 256
      ensures Valid() && State() == s
    {
      tag := TagOf(s.value);
      shadowTag := if s.speculative then TagSpecConstant else TagOf(s.value);
      numRangeExtensions := s.extensions;
      constVal := if s.value.Const? || s.value.NotConst? then s.value.c else UndefConstant;
      range := if s.value.HasRange() then s.value.r else ConstantRange(0, 0, 0);
    }

    /** Copying keeps the counter of a range only, and overwrites the shadow tag with the tag: a copy
        is never speculative. */
    constructor Copy(s: Snapshot)
      requires s.value.Valid() && s.extensions < 256
      ensures Valid() && State() == CopyOf(s)
      ensures Value() == s.value && !Speculative()
      ensures numRangeExtensions == if s.value.Range? || s.value.RangeOrUndef? then s.extensions else 0
    {
      tag, shadowTag := TagOf(s.value), TagOf(s.value);
      numRangeExtensions := if s.value.HasRange() then s.extensions else 0;
      constVal := if s.value.Const? || s.value.NotConst? then s.value.c else UndefConstant;
      range := if s.value.HasRange() then s.value.r else ConstantRange(0, 0, 0);
    }

    method Assign(s: Snapshot)
      requires s.value.Valid() && s.extensions < 256
      modifies this
      ensures Valid() && State() == CopyOf(s)
      ensures Value() == s.value && !Speculative()
      ensures numRangeExtensions == if s.value.Range? || s.value.RangeOrUndef? then s.extensions else 0
    {
      tag, shadowTag := TagOf(s.value), TagOf(s.value);
      numRangeExtensions := if s.value.HasRange() then s.extensions else 0;
      constVal := if s.value.Const? || s.value.NotConst? then s.value.c else UndefConstant;
      range := if s.value.HasRange() then s.value.r else ConstantRange(0, 0, 0);
    }

    method MarkOverdefined() returns (changed: bool)
      requires Valid()
      modifies this
      ensures Valid() && Value() == Overdefined && changed == (old(Value()) != Overdefined)
      ensures numRangeExtensions == old(numRangeExtensions) && shadowTag == old(shadowTag)
    {
      if tag == TagOverdefined {
        return false;
      }
      tag := TagOverdefined;
      return true;
    }

    method MarkUndef() returns (changed: bool)
      requires Valid() && Value().IsUnknownOrUndef()
      modifies this`tag
      ensures Valid() && Value() == Undef && changed == (old(Value()) != Undef)
    {
      if tag == TagUndef {
        return false;
      }
      tag := TagUndef;
      return true;
    }

    /** Only the tag goes back to unknown; the shadow tag stays. */
    method MarkUnknown() returns (changed: bool)
      requires Valid()
      modifies this`tag
      ensures Valid() && Value() == Unknown && changed == (old(Value()) != Unknown)
    {
      if tag == TagUnknown {
        return false;
      }
      tag := TagUnknown;
      return true;
    }

    method SetNumRangeExtensions(n: nat)
      requires Valid()
      modifies this`numRangeExtensions
      ensures Valid() && numRangeExtensions == ToByte(n)
    {
      numRangeExtensions := ToByte(n);
    }

    /** A constant may only be marked on an element that is unknown, undef or already that constant. */
    method MarkConstant(c: Constant, mayIncludeUndef: bool) returns (changed: bool)
      requires Valid()
      requires c.UndefConstant? ==> Value().IsUnknownOrUndef()
      requires c.OtherConstant? ==> Value().IsUnknownOrUndef() || Value() == Const(c)
      requires c.IntConstant? ==> c.value < c.size && c.size >= 2 && !Value().Const?
      requires c.IntConstant? ==> Value().IsUnknownOrUndef() || (Value().HasRange() && Value().r == SingleRange(c))
      modifies this
      ensures Valid()
      ensures c.UndefConstant? ==> Value() == Undef
      ensures c.OtherConstant? ==> Value() == Const(c)
      ensures c.IntConstant? ==>
                Value() == RangeValue(SingleRange(c), mayIncludeUndef || old(Value()).Undef? ||
                  old(Value()).RangeOrUndef?)
      ensures changed == (Value() != old(Value()))
      ensures shadowTag == old(shadowTag)
      ensures !c.IntConstant? ==> numRangeExtensions == old(numRangeExtensions)
    {
      if c.UndefConstant? {
        changed := MarkUndef();
        return;
      }
      if tag == TagConstant {
        return false;
      }
      if c.IntConstant? {
        changed := MarkConstantRange(SingleRange(c), MergeOptions(mayIncludeUndef, false, 1));
        return;
      }
      tag, constVal := TagConstant, c;
      return true;
    }

    /** The element takes a range that contains the one it has, unless the widening limit is passed. */
    method MarkConstantRange(newR: ConstantRange, opts: MergeOptions) returns (changed: bool)
      requires Valid() && newR.Valid()
      requires Value().HasRange() ==> Value().r.size == newR.size
      requires newR.IsFullSet() || Value().IsUnknownOrUndef() ||
        (Value().HasRange() && Value().r.UnionWith(newR) == newR)
      modifies this
      ensures Valid() && shadowTag == old(shadowTag)
      ensures Value() ==
        if old(Value()).HasRange() && Widens(old(Value()), Range(newR), old(numRangeExtensions), opts) then Overdefined
        else RangeValue(newR, opts.mayIncludeUndef || old(Value()).Undef? || old(Value()).RangeOrUndef?)
      ensures changed == (Value() != old(Value()))
      ensures numRangeExtensions ==
        ExtensionsAfter(old(State()), Snapshot(if newR.IsFullSet() then Overdefined else Range(newR), false, 0), opts)
    {
      if newR.IsFullSet() {
        changed := MarkOverdefined();
        return;
      }
      var oldTag := tag;
      var newTag :=
        if tag == TagUndef || tag == TagConstantRangeIncludingUndef || opts.mayIncludeUndef
        then TagConstantRangeIncludingUndef else TagConstantRange;
      if tag == TagConstantRange || tag == TagConstantRangeIncludingUndef {
        tag := newTag;
        if range == newR {
          return tag != oldTag;
        }
        if opts.checkWiden {
          numRangeExtensions := ToByte(numRangeExtensions + 1);
          if numRangeExtensions > opts.maxWidenSteps {
            changed := MarkOverdefined();
            return;
          }
        }
        range := newR;
        return true;
      }
      numRangeExtensions, tag, range := 0, newTag, newR;
      return true;
    }

    /** Merging one known value into another is their join, or overdefined when the widening limit is
        passed; the answer says whether the meaning changed. A speculative right-hand side never
        changes the meaning: at most it makes this element speculative too. */
    method MergeIn(rhs: Snapshot, opts: MergeOptions) returns (changed: bool)
      requires Valid() && rhs.value.Valid() && rhs.extensions < 256 && Compatible(Value(), rhs.value)
      modifies this
      ensures Valid()
      ensures !rhs.speculative ==>
        Value() == if Widens(old(Value()), rhs.value, old(numRangeExtensions), opts) then Overdefined
                   else Join(old(Value()), rhs.value)
      ensures !rhs.speculative ==> changed == (Value() != old(Value()))
      ensures !rhs.speculative && old(Value()).Unknown? && !rhs.value.Unknown? && !rhs.value.Overdefined? ==>
        !Speculative()
      ensures !rhs.speculative && (!old(Value()).Unknown? || rhs.value.Unknown?) ==> Speculative() == old(Speculative())
      ensures !rhs.speculative && !old(Speculative()) ==> !Speculative()
      ensures IsSpeculativeConstant(rhs) ==> Value() == old(Value())
      ensures IsSpeculativeConstant(rhs) && old(Value()).IsIntConstant() && rhs.value.HasRange() ==> Speculative()
      ensures !rhs.speculative ==> numRangeExtensions == ExtensionsAfter(old(State()), rhs, opts)
    {
      if rhs.value.Unknown? || tag == TagOverdefined {
        return false;
      }
      if rhs.value.Overdefined? {
        changed := MarkOverdefined();
        return true;
      }
      if rhs.speculative && rhs.value.Range? && rhs.value.r.IsSingleElement() {
        if Value().IsIntConstant() {
          changed := MarkSpeculativeConstantRange(range);
          return;
        }
        return false;
      }
      if rhs.speculative && rhs.value.Const? {
        if tag == TagConstant {
          changed := MarkSpeculativeConstant(constVal);
          return;
        }
        return false;
      }
      if tag == TagUndef {
        if rhs.value.Undef? {
          return false;
        }
        if rhs.value.Const? {
          changed := MarkConstant(rhs.value.c, true);
          return;
        }
        if rhs.value.HasRange() {
          changed := MarkConstantRange(rhs.value.r, opts.(mayIncludeUndef := true));
          return;
        }
        changed := MarkOverdefined();
        return;
      }
      if tag == TagUnknown {
        Assign(rhs);
        return true;
      }
      if tag == TagConstant {
        if (rhs.value.Const? && constVal == rhs.value.c) || rhs.value.Undef? {
          return false;
        }
        changed := MarkOverdefined();
        return true;
      }
      if tag == TagNotConstant {
        if rhs.value.NotConst? && constVal == rhs.value.c {
          return false;
        }
        changed := MarkOverdefined();
        return true;
      }
      var oldTag := tag;
      if rhs.value.Undef? {
        tag := TagConstantRangeIncludingUndef;
        return oldTag != tag;
      }
      if !rhs.value.HasRange() {
        changed := MarkOverdefined();
        return true;
      }
      changed := MarkConstantRange(range.UnionWith(rhs.value.r), opts.(mayIncludeUndef := rhs.value.RangeOrUndef?));
    }

    // ----- speculation -----

    method MarkSpeculativeConstant(c: Constant) returns (changed: bool)
      requires Valid() && c.OtherConstant?
      modifies this
      ensures Valid() && Speculative() && Value().Const?
      ensures !(old(Speculative()) && old(Value()).Const?) ==> Value() == Const(c)
      ensures old(Speculative()) && old(Value()).Const? ==> Value() == old(Value())
      ensures changed == !(old(Speculative()) && old(Value()).Const?)
      ensures numRangeExtensions == old(numRangeExtensions)
    {
      if shadowTag == TagSpecConstant && tag == TagConstant {
        return false;
      }
      tag, shadowTag, constVal := TagConstant, TagSpecConstant, c;
      return true;
    }

    /** The element takes a range that contains the one it has. It becomes speculative unless it was a range of more
        than one element; a full range makes it overdefined instead. */
    method MarkSpeculativeConstantRange(newR: ConstantRange) returns (changed: bool)
      requires Valid() && newR.Valid() && (Value().HasRange() ==> Value().r.size == newR.size)
      requires newR.IsFullSet() || Value().IsUnknownOrUndef() ||
        (Value().HasRange() && Value().r.UnionWith(newR) == newR)
      modifies this
      ensures Valid() && changed == (Value() != old(Value()))
      ensures numRangeExtensions == if newR.IsFullSet() || old(Value()).HasRange() then old(numRangeExtensions) else 0
      ensures Value() == RangeValue(newR, old(Value()).Undef? || old(Value()).RangeOrUndef?)
      ensures Speculative() ==
        if newR.IsFullSet() || (old(Value()).HasRange() && !old(Value()).r.IsSingleElement())
        then old(Speculative()) else true
    {
      if newR.IsFullSet() {
        changed := MarkOverdefined();
        return;
      }
      var oldTag := tag;
      var newTag := if tag == TagUndef || tag == TagConstantRangeIncludingUndef
                    then TagConstantRangeIncludingUndef else TagConstantRange;
      if Value().HasRange() {
        tag := newTag;
        if range.IsSingleElement() {
          shadowTag := TagSpecConstant;
        }
        if range == newR {
          return tag != oldTag;
        }
        range := newR;
        return true;
      }
      numRangeExtensions, tag, shadowTag, range := 0, newTag, TagSpecConstant, newR;
      return true;
    }

    /** The tau rule: a safe value that is not already known to be exactly beta lets a speculative
        beta through. */
    method MergeInSpec(beta: Snapshot, tauState: SpecValueLatticeElement)
      requires Valid() && beta.value.Valid() && tauState != this
      requires Value().HasRange() ==> beta.value.HasRange()
      requires beta.speculative && beta.value.Range? ==> beta.value.r.IsSingleElement()
      requires tauState.Valid()
      requires beta.speculative && beta.value.Range? ==>
        tauState.Value().IsUnknownOrUndef() || (tauState.Value().HasRange() && tauState.Value().r == beta.value.r)
      modifies tauState
      ensures tauState.Valid()
      ensures var through := Value().Overdefined? || Value().NotConst? ||
        (Value().HasRange() && Value().r != beta.value.r);
        if through && IsSpeculativeConstant(beta) &&
          !(old(tauState.Speculative() && tauState.Value().Const?) && beta.value.Const?)
        then tauState.Value() == Speculated(old(tauState.Value()), beta.value) && tauState.Speculative()
        else tauState.State() == old(tauState.State())
    {
      if tag == TagOverdefined || tag == TagNotConstant || (Value().HasRange() && range != beta.value.r) {
        if beta.speculative && beta.value.Const? {
          var _ := tauState.MarkSpeculativeConstant(beta.value.c);
        }
        if beta.speculative && beta.value.Range? {
          var _ := tauState.MarkSpeculativeConstantRange(beta.value.r);
        }
      }
    }
  }

  /** A speculative tag on a constant or on a single-element range without undef. */
  predicate IsSpeculativeConstant(s: Snapshot) {
    s.speculative && (s.value.Const? || (s.value.Range? && s.value.r.IsSingleElement()))
  }

  /** The speculative constant as it arrives in an element: a range remembers that the element may be undef. */
  function Speculated(v: Value, beta: Value): Value {
    if beta.Range? && (v.Undef? || v.RangeOrUndef?) then RangeOrUndef(beta.r) else beta
  }

  function SingleRange(c: Constant): ConstantRange
    requires c.IntConstant?
  {
    ConstantRange(c.size, c.value, c.value)
  }

  function TagOf(v: Value): Tag {
    match v
    case Unknown => TagUnknown
    case Undef => TagUndef
    case Const(_) => TagConstant
    case NotConst(_) => TagNotConstant
    case Range(_) => TagConstantRange
    case RangeOrUndef(_) => TagConstantRangeIncludingUndef
    case Overdefined => TagOverdefined
  }

  function CopyOf(s: Snapshot): Snapshot {
    Snapshot(s.value, false, if s.value.HasRange() then s.extensions else 0)
  }
}
