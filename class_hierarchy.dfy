/** class: isDirectSubclass, isSubclass and isDirectInstance, the checks
    added to Function.prototype, over a heap of objects and functions
    linked by their prototypes. */
module ClassHierarchy {
  import opened Wrappers

  /** A JavaScript value, as far as the checks look at it: a reference
      into the heap or one of the values that is not an object. */
  datatype Value = Undefined | Null | Primitive | Ref(address: nat)

  /** A heap cell: whether it is a function (typeof "function") or a plain
      object (typeof "object"), its prototype, the value its `constructor`
      property reads, and the length of its prototype chain. */
  datatype Cell = Cell(callable: bool, proto: Value, ctor: Value, depth: nat)

  /** The heap, with the address of Function.prototype. */
  datatype Heap = Heap(cells: map<nat, Cell>, functionPrototype: nat)

  /** Every prototype is null or a cell whose own chain is shorter, so
      every chain is finite and acyclic; Function.prototype is a function. */
  predicate Valid(h: Heap)
  {
    && h.functionPrototype in h.cells
    && h.cells[h.functionPrototype].callable
    && forall a :: a in h.cells ==> ProtoBelow(h, h.cells[a])
  }

  predicate ProtoBelow(h: Heap, c: Cell)
  {
    match c.proto
    case Null => true
    case Ref(p) => p in h.cells && h.cells[p].depth < c.depth
    case _ => false
  }

  /** typeof v === "function". */
  predicate IsFunction(h: Heap, v: Value)
  {
    v.Ref? && v.address in h.cells && h.cells[v.address].callable
  }

  /** v !== null && typeof v === "object". */
  predicate IsObject(h: Heap, v: Value)
  {
    v.Ref? && v.address in h.cells && !h.cells[v.address].callable
  }

  /** Object.getPrototypeOf(v) of a cell. */
  function Proto(h: Heap, v: Value): Value
    requires v.Ref? && v.address in h.cells
  {
    h.cells[v.address].proto
  }

  /** The measure the prototype walk decreases. */
  function Depth(h: Heap, v: Value): nat
  {
    if v.Ref? && v.address in h.cells then h.cells[v.address].depth + 1 else 0
  }

  lemma ProtoDecreases(h: Heap, v: Value)
    requires Valid(h) && v.Ref? && v.address in h.cells
    ensures Depth(h, Proto(h, v)) < Depth(h, v)
    ensures Proto(h, v).Null? || (Proto(h, v).Ref? && Proto(h, v).address in h.cells)
  {
    assert ProtoBelow(h, h.cells[v.address]);
  }

  /** Function.prototype.isDirectSubclass: false unless both are functions,
      otherwise whether the prototype of child is cls. */
  function IsDirectSubclass(h: Heap, cls: Value, child: Value): (b: bool)
    ensures b ==> IsFunction(h, cls) && IsFunction(h, child)
    ensures IsFunction(h, cls) && IsFunction(h, child) ==> (b <==> Proto(h, child) == cls)
  {
    if !IsFunction(h, child) || !IsFunction(h, cls) then false
    else Proto(h, child) == cls
  }

  /** The functions isSubclass compares with the class, in order: d, its
      prototype, and so on while the value is a function, stopping before
      Function.prototype. */
  function Walk(h: Heap, v: Value): (w: seq<Value>)
    requires Valid(h)
    ensures |w| > 0 <==> IsFunction(h, v)
    ensures |w| > 0 ==> w[0] == v
    decreases Depth(h, v)
  {
    if !IsFunction(h, v) then []
    else
      ProtoDecreases(h, v);
      var next := Proto(h, v);
      [v] + if next == Ref(h.functionPrototype) then [] else Walk(h, next)
  }

  /** isSubclass(cls, d): both are functions and cls is on d's walk. */
  predicate Subclass(h: Heap, cls: Value, d: Value)
    requires Valid(h)
    ensures Subclass(h, cls, d) ==> IsFunction(h, cls) && IsFunction(h, d)
  {
    IsFunction(h, d) && IsFunction(h, cls) && cls in Walk(h, d)
  }

  /** Function.prototype.isSubclass: the while loop over the prototype
      chain. */
  method IsSubclass(h: Heap, cls: Value, d: Value) returns (r: bool)
    requires Valid(h)
    ensures r == Subclass(h, cls, d)
    ensures r ==> IsFunction(h, cls) && IsFunction(h, d)
  {
    if !IsFunction(h, d) || !IsFunction(h, cls) {
      return false;
    }
    var current := d;
    while IsFunction(h, current)
      invariant (cls in Walk(h, d)) == (cls in Walk(h, current))
      decreases Depth(h, current)
    {
      if current == cls {
        return true;
      }
      ProtoDecreases(h, current);
      var next := Proto(h, current);
      if next == Ref(h.functionPrototype) {
        assert Walk(h, current) == [current];
        return false;
      }
      current := next;
    }
    return false;
  }

  /** The walk goes from each function to its prototype, visits only
      functions, and never visits Function.prototype after its start. */
  lemma {:induction false} WalkShape(h: Heap, v: Value)
    requires Valid(h)
    ensures |Walk(h, v)| > 0 <==> IsFunction(h, v)
    ensures |Walk(h, v)| > 0 ==> Walk(h, v)[0] == v
    ensures forall k :: 0 <= k < |Walk(h, v)| ==> IsFunction(h, Walk(h, v)[k])
    ensures forall k :: 0 <= k < |Walk(h, v)| - 1 ==>
      IsFunction(h, Walk(h, v)[k]) && Walk(h, v)[k + 1] == Proto(h, Walk(h, v)[k])
    ensures forall k :: 0 < k < |Walk(h, v)| ==> Walk(h, v)[k] != Ref(h.functionPrototype)
    decreases Depth(h, v)
  {
    if IsFunction(h, v) {
      ProtoDecreases(h, v);
      var next := Proto(h, v);
      if next != Ref(h.functionPrototype) {
        WalkShape(h, next);
        var w := Walk(h, v);
        assert w == [v] + Walk(h, next);
        assert forall k :: 0 < k < |w| ==> w[k] == Walk(h, next)[k - 1];
      }
    }
  }

  /** Every function is a subclass of itself. */
  lemma SubclassReflexive(h: Heap, c: Value)
    requires Valid(h) && IsFunction(h, c)
    ensures Subclass(h, c, c)
  {
    WalkShape(h, c);
  }

  /** A direct subclass is a subclass, unless the parent is
      Function.prototype, where the walk stops before comparing. */
  lemma DirectIsSubclass(h: Heap, c: Value, d: Value)
    requires Valid(h) && IsDirectSubclass(h, c, d)
    ensures Subclass(h, c, d) <==> c != Ref(h.functionPrototype)
  {
    ProtoDecreases(h, d);
    WalkShape(h, d);
    if c != Ref(h.functionPrototype) {
      WalkShape(h, c);
      assert Walk(h, d) == [d] + Walk(h, c);
    } else {
      assert Walk(h, d) == [d];
      assert d != c by {
        assert Depth(h, Proto(h, d)) < Depth(h, d);
      }
    }
  }

  /** Function.prototype is a subclass only of itself. */
  lemma FunctionPrototypeOnlyItself(h: Heap, d: Value)
    requires Valid(h)
    ensures Subclass(h, Ref(h.functionPrototype), d) <==> d == Ref(h.functionPrototype)
  {
    WalkShape(h, d);
    if d == Ref(h.functionPrototype) {
      SubclassReflexive(h, d);
    }
  }

  /** The walk from any function on the walk of v stays on it. */
  lemma {:induction false} WalkSuffix(h: Heap, v: Value, b: Value)
    requires Valid(h) && b in Walk(h, v)
    ensures forall x :: x in Walk(h, b) ==> x in Walk(h, v)
    decreases Depth(h, v)
  {
    if b != v {
      ProtoDecreases(h, v);
      var next := Proto(h, v);
      assert Walk(h, v) == [v] + Walk(h, next);
      WalkSuffix(h, next, b);
    }
  }

  /** isSubclass is transitive. */
  lemma SubclassTransitive(h: Heap, a: Value, b: Value, c: Value)
    requires Valid(h) && Subclass(h, a, b) && Subclass(h, b, c)
    ensures Subclass(h, a, c)
  {
    WalkSuffix(h, c, b);
  }

  datatype Error = TypeError

  /** Function.prototype.isDirectInstance as written: reading
      `constructor` of a null prototype throws a TypeError. */
  function IsDirectInstanceAsWritten(h: Heap, cls: Value, o: Value): (r: Result<bool, Error>)
    ensures r.Failure? <==> IsFunction(h, cls) && IsObject(h, o) && !Proto(h, o).Ref?
    ensures r == Success(true) ==> IsFunction(h, cls) && IsObject(h, o)
  {
    if !IsFunction(h, cls) || !IsObject(h, o) then Success(false)
    else match Proto(h, o)
      case Ref(p) => Success(p in h.cells && h.cells[p].ctor == cls)
      case _ => Failure(TypeError)
  }

  /** An object made with a null prototype makes the check throw. */
  lemma NullPrototypeThrows()
    ensures var h := Heap(map[0 := Cell(true, Null, Undefined, 0), 1 := Cell(false, Null, Undefined, 0)], 0);
            Valid(h) && IsObject(h, Ref(1)) && IsDirectInstanceAsWritten(h, Ref(0), Ref(1)) == Failure(TypeError)
  {
    var h := Heap(map[0 := Cell(true, Null, Undefined, 0), 1 := Cell(false, Null, Undefined, 0)], 0);
    assert ProtoBelow(h, h.cells[0]) && ProtoBelow(h, h.cells[1]);
  }

  /** isDirectInstance as intended: whether o is an object whose
      prototype has cls as its constructor, and false for an object without a
      prototype. */
  function IsDirectInstance(h: Heap, cls: Value, o: Value): (b: bool)
    requires Valid(h)
    ensures b <==> IsFunction(h, cls) && IsObject(h, o) && Proto(h, o).Ref?
                   && h.cells[Proto(h, o).address].ctor == cls
  {
    if !IsFunction(h, cls) || !IsObject(h, o) then false
    else
      ProtoDecreases(h, o);
      match Proto(h, o)
      case Ref(p) => h.cells[p].ctor == cls
      case _ => false
  }

  /** Where the code as written returns, it returns the intended answer. */
  lemma DirectInstanceAgrees(h: Heap, cls: Value, o: Value)
    requires Valid(h)
    ensures IsDirectInstanceAsWritten(h, cls, o).Success? ==>
      IsDirectInstanceAsWritten(h, cls, o).value == IsDirectInstance(h, cls, o)
    ensures IsDirectInstanceAsWritten(h, cls, o).Failure? <==>
      IsObject(h, o) && IsFunction(h, cls) && Proto(h, o).Null?
  {
    if IsObject(h, o) {
      ProtoDecreases(h, o);
    }
  }

  /** An object is a direct instance of at most one constructor. */
  lemma DirectInstanceUnique(h: Heap, a: Value, b: Value, o: Value)
    requires Valid(h) && IsDirectInstance(h, a, o) && IsDirectInstance(h, b, o)
    ensures a == b
  {
  }
}
