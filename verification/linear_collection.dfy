/** The value side of `LinearCollection`, the animated stand-in for a Python list.
    The original keeps one visual "data" object per element; the model keeps the
    integer each of them displays, in order, and the length of the Mobject's own
    `submobjects` list, which `pop` indexes. */
module LinearCollections {
  import opened Wrappers
  import opened PyLists

  /** A collection: the values shown, in order; whether it was given a delimiter;
      and how many entries its `submobjects` list holds. Each insertion adds its
      container there, and a copy of the delimiter when there is one; `pop` takes
      two entries out; `__delitem__` leaves the list alone. */
  datatype LinearCollection = LinearCollection(data: seq<int>, delimited: bool, submobjectCount: nat)

  function Length(c: LinearCollection): int
  {
    |c.data|
  }

  /** How many submobjects one insertion adds. */
  function PartsPerElement(c: LinearCollection): nat
  {
    if c.delimited then 2 else 1
  }

  /** An empty collection, before the constructor's append loop runs. */
  function Empty(delimited: bool): (c: LinearCollection)
    ensures Length(c) == 0 && c.submobjectCount == 0 && c.delimited == delimited
  {
    LinearCollection([], delimited, 0)
  }

  /** `insert(index, value)`. The data list is updated with `list.insert`, which
      clamps the position, but the next statement reads `datas[index]` with the raw
      subscript, which raises IndexError unless `-(n+1) <= index <= n`. The
      submobject list then gains the container, and the delimiter if any. */
  function Insert(c: LinearCollection, index: int, value: int): (r: Result<LinearCollection>)
    ensures r.Success? <==> -(Length(c) + 1) <= index <= Length(c)
    ensures r.Success? && 0 <= index ==>
      r.value.data == c.data[..index] + [value] + c.data[index..]
    ensures r.Success? && -Length(c) <= index < 0 ==>
      r.value.data == c.data[..index + Length(c)] + [value] + c.data[index + Length(c)..]
    ensures r.Success? && index == -(Length(c) + 1) ==> r.value.data == [value] + c.data
    ensures r.Success? ==>
      r.value.delimited == c.delimited && r.value.submobjectCount == c.submobjectCount + PartsPerElement(c)
  {
    var n := Length(c);
    if index < -(n + 1) || n < index then Failure(IndexError)
    else
      var p := InsertPosition(n, index);
      Success(LinearCollection(c.data[..p] + [value] + c.data[p..], c.delimited, c.submobjectCount + PartsPerElement(c)))
  }

  /** `append(value)`, which is `insert(len(self), value)` and so never fails. */
  function Append(c: LinearCollection, value: int): (r: LinearCollection)
    ensures r.data == c.data + [value]
    ensures r.delimited == c.delimited && r.submobjectCount == c.submobjectCount + PartsPerElement(c)
  {
    Insert(c, Length(c), value).value
  }

  /** `extend(values)`: one `append` per value, in order. */
  function Extend(c: LinearCollection, values: seq<int>): (r: LinearCollection)
    ensures r.data == c.data + values
    ensures r.delimited == c.delimited
    ensures r.submobjectCount == c.submobjectCount + |values| * PartsPerElement(c)
    decreases |values|
  {
    if |values| == 0 then c
    else
      var r := Extend(Append(c, values[0]), values[1..]);
      assert c.data + [values[0]] + values[1..] == c.data + values;
      r
  }

  /** The constructor: start empty and append every value of `data`. */
  function FromValues(data: seq<int>, delimited: bool): (c: LinearCollection)
    ensures c.data == data && c.delimited == delimited
    ensures c.submobjectCount == |data| * (if delimited then 2 else 1)
  {
    Extend(Empty(delimited), data)
  }

  /** The data-list removal of `__delitem__`. */
  function RemoveAt(c: LinearCollection, index: int): Result<LinearCollection>
  {
    match ResolveIndex(Length(c), index)
    case None => Failure(IndexError)
    case Some(p) => Success(c.(data := c.data[..p] + c.data[p + 1..]))
  }

  /** `__delitem__(key)`: removes the element at Python subscript `key`; the rest
      keep their order. Out of range, including any key on an empty collection,
      raises IndexError. The submobject list is not touched. */
  function DelItem(c: LinearCollection, key: int): (r: Result<LinearCollection>)
    ensures r.Success? <==> -Length(c) <= key < Length(c)
    ensures r.Success? ==>
      var p := if key < 0 then key + Length(c) else key;
      && Length(r.value) == Length(c) - 1
      && (forall j :: 0 <= j < p ==> r.value.data[j] == c.data[j])
      && (forall j :: p <= j < Length(r.value) ==> r.value.data[j] == c.data[j + 1])
    ensures r.Success? ==> r.value.delimited == c.delimited && r.value.submobjectCount == c.submobjectCount
  {
    RemoveAt(c, key)
  }

  /** `pop(index)` (the source's default is `-1`): removes the element from the
      data and container lists by Python's rules, then pops subscript
      `2 * index` of the submobject list twice. Each of those pops raises
      IndexError when its subscript is out of range. It returns nothing, so the
      model yields only the new state. */
  function Pop(c: LinearCollection, index: int): (r: Result<LinearCollection>)
    ensures r.Success? <==>
      -Length(c) <= index < Length(c) && -(c.submobjectCount - 1) <= 2 * index < c.submobjectCount - 1
    ensures r.Success? ==>
      && DelItem(c, index).Success?
      && r.value.data == DelItem(c, index).value.data
      && r.value.delimited == c.delimited
      && r.value.submobjectCount == c.submobjectCount - 2
  {
    match RemoveAt(c, index)
    case Failure(e) => Failure(e)
    case Success(d) =>
      var m := c.submobjectCount;
      if ResolveIndex(m, 2 * index).None? then Failure(IndexError)
      else if ResolveIndex(m - 1, 2 * index).None? then Failure(IndexError)
      else Success(d.(submobjectCount := m - 2))
  }

  /** `clear()`: the data, container and submobject lists are all emptied. */
  function Clear(c: LinearCollection): (r: LinearCollection)
    ensures Length(r) == 0 && r.submobjectCount == 0 && r.delimited == c.delimited
  {
    c.(data := [], submobjectCount := 0)
  }

  /** `c[key]`: the value shown at Python subscript `key`. */
  function GetItem(c: LinearCollection, key: int): (r: Result<int>)
    ensures r.Success? <==> -Length(c) <= key < Length(c)
    ensures r.Success? && 0 <= key ==> r.value == c.data[key]
    ensures r.Success? && key < 0 ==> r.value == c.data[Length(c) + key]
  {
    match ResolveIndex(Length(c), key)
    case None => Failure(IndexError)
    case Some(p) => Success(c.data[p])
  }

  /** `c[key] = value`: the data object at `key` is given the new value. */
  function SetItem(c: LinearCollection, key: int, value: int): (r: Result<LinearCollection>)
    ensures r.Success? <==> -Length(c) <= key < Length(c)
    ensures r.Success? ==>
      var p := if key < 0 then key + Length(c) else key;
      && Length(r.value) == Length(c)
      && r.value.data[p] == value
      && (forall j :: 0 <= j < Length(c) && j != p ==> r.value.data[j] == c.data[j])
    ensures r.Success? ==> r.value.delimited == c.delimited && r.value.submobjectCount == c.submobjectCount
  {
    match ResolveIndex(Length(c), key)
    case None => Failure(IndexError)
    case Some(p) => Success(c.(data := c.data[p := value]))
  }

  /** `a + b`: a copy of `a` followed by the values of `b`, each appended with
      its container (and a delimiter when `a` has one). */
  function Add(a: LinearCollection, b: LinearCollection): (r: LinearCollection)
    ensures Length(r) == Length(a) + Length(b)
    ensures forall i :: 0 <= i < Length(a) ==> r.data[i] == a.data[i]
    ensures forall i :: Length(a) <= i < Length(r) ==> r.data[i] == b.data[i - Length(a)]
    ensures r.delimited == a.delimited
    ensures r.submobjectCount == a.submobjectCount + Length(b) * PartsPerElement(a)
  {
    LinearCollection(a.data + b.data, a.delimited, a.submobjectCount + |b.data| * PartsPerElement(a))
  }

  /** Reading back the value just written gives that value; every other
      subscript reads what it read before. */
  lemma SetThenGet(c: LinearCollection, key: int, value: int, other: int)
    requires -Length(c) <= key < Length(c)
    requires -Length(c) <= other < Length(c)
    ensures GetItem(SetItem(c, key, value).value, key) == Success(value)
    ensures (if other < 0 then other + Length(c) else other) != (if key < 0 then key + Length(c) else key) ==>
      GetItem(SetItem(c, key, value).value, other) == GetItem(c, other)
  {
  }

  /** Deleting the position just inserted at gives back the original values,
      and reading that position gives the inserted value. The drawing keeps the
      inserted container: `__delitem__` does not remove submobjects. */
  lemma InsertThenDelete(c: LinearCollection, index: nat, value: int)
    requires index <= Length(c)
    ensures Insert(c, index, value).Success?
    ensures GetItem(Insert(c, index, value).value, index) == Success(value)
    ensures DelItem(Insert(c, index, value).value, index).Success?
    ensures DelItem(Insert(c, index, value).value, index).value.data == c.data
    ensures DelItem(Insert(c, index, value).value, index).value.submobjectCount == c.submobjectCount + PartsPerElement(c)
  {
    var c' := Insert(c, index, value).value;
    assert c'.data[..index] + c'.data[index + 1..] == c.data;
  }

  /** Building from `data` and then extending by `more` gives exactly the values
      of both, in order: construction and `extend` are a sequence of appends. */
  lemma FromValuesThenExtend(data: seq<int>, more: seq<int>, delimited: bool)
    ensures Extend(FromValues(data, delimited), more).data == data + more
    ensures forall i :: 0 <= i < |data| ==> GetItem(FromValues(data, delimited), i) == Success(data[i])
  {
  }

  // Comparison operators. Each of `__lt__`, `__le__`, `__gt__` and `__ge__` walks
  // `zip(self, rhs)` to the first pair that differs, lets that pair decide, and
  // falls back to comparing lengths when one side is a prefix of the other.

  /** The first position at which `a` and `b` hold different values, looking only
      at their common prefix as `zip` does; None when one is a prefix of the other. */
  function Mismatch(a: seq<int>, b: seq<int>): (r: Option<nat>)
    ensures r.Some? ==> r.value < |a| && r.value < |b| && a[r.value] != b[r.value]
    ensures r.Some? ==> forall j :: 0 <= j < r.value ==> a[j] == b[j]
    ensures r.None? <==> forall j :: 0 <= j < |a| && j < |b| ==> a[j] == b[j]
    decreases |a|
  {
    if |a| == 0 || |b| == 0 then None
    else if a[0] != b[0] then Some(0)
    else
      match Mismatch(a[1..], b[1..])
      case None => None
      case Some(k) => Some(k + 1)
  }

  /** Lexicographic order in its textbook form, independent of the scan above:
      `a` is a proper prefix of `b`, or `a` holds the smaller value at the first
      position where the two differ. */
  ghost predicate LexLess(a: seq<int>, b: seq<int>)
  {
    || (|a| < |b| && a == b[..|a|])
    || exists k :: 0 <= k < |a| && k < |b| && a[..k] == b[..k] && a[k] < b[k]
  }

  /** `lhs < rhs`; `rhs` may be any iterable of values. It is lexicographic order. */
  function Lt(lhs: LinearCollection, rhs: seq<int>): (r: bool)
    ensures r <==> LexLess(lhs.data, rhs)
  {
    FirstDifferenceIsLex(lhs.data, rhs);
    match Mismatch(lhs.data, rhs)
    case Some(k) => lhs.data[k] < rhs[k]
    case None => |lhs.data| < |rhs|
  }

  /** `lhs <= rhs`: the first differing pair decides with `<`; otherwise the
      lengths are compared with `<=`. */
  function Le(lhs: LinearCollection, rhs: seq<int>): (r: bool)
    ensures r <==> LexLess(lhs.data, rhs) || lhs.data == rhs
  {
    FirstDifferenceIsLex(lhs.data, rhs);
    SameValuesIffNoMismatch(lhs.data, rhs);
    match Mismatch(lhs.data, rhs)
    case Some(k) => lhs.data[k] < rhs[k]
    case None => |lhs.data| <= |rhs|
  }

  /** `lhs > rhs`: lexicographic order with the operands swapped. */
  function Gt(lhs: LinearCollection, rhs: seq<int>): (r: bool)
    ensures r <==> LexLess(rhs, lhs.data)
  {
    MismatchSymmetric(lhs.data, rhs);
    FirstDifferenceIsLex(rhs, lhs.data);
    match Mismatch(lhs.data, rhs)
    case Some(k) => lhs.data[k] > rhs[k]
    case None => |lhs.data| > |rhs|
  }

  /** `lhs >= rhs`. */
  function Ge(lhs: LinearCollection, rhs: seq<int>): (r: bool)
    ensures r <==> LexLess(rhs, lhs.data) || lhs.data == rhs
  {
    MismatchSymmetric(lhs.data, rhs);
    FirstDifferenceIsLex(rhs, lhs.data);
    SameValuesIffNoMismatch(lhs.data, rhs);
    match Mismatch(lhs.data, rhs)
    case Some(k) => lhs.data[k] > rhs[k]
    case None => |lhs.data| >= |rhs|
  }

  /** The class of an operand of `==`, as far as the comparison looks at it:
      `__eq__` compares `type(rhs)` with `LinearCollection` exactly, so a subclass
      such as `Stack` is told apart from the class itself. */
  datatype OperandClass = ExactlyLinearCollection | LinearCollectionSubclass | OtherIterable

  /** The right-hand side of `==` or `!=`: its class and the values it yields. */
  datatype Operand = Operand(cls: OperandClass, items: seq<int>)

  /** The method call `lhs.__eq__(rhs)`: true exactly when `rhs` is an instance of
      `LinearCollection` itself (not of a subclass) holding the same values in
      the same order. */
  function Eq(lhs: LinearCollection, rhs: Operand): (r: bool)
    ensures r <==> rhs.cls == ExactlyLinearCollection && rhs.items == lhs.data
  {
    if rhs.cls != ExactlyLinearCollection || |lhs.data| != |rhs.items| then false
    else Mismatch(lhs.data, rhs.items).None?
  }

  /** The method call `lhs.__ne__(rhs)`, defined as `not lhs.__eq__(rhs)`. */
  function Ne(lhs: LinearCollection, rhs: Operand): (r: bool)
    ensures r <==> rhs.cls != ExactlyLinearCollection || rhs.items != lhs.data
  {
    !Eq(lhs, rhs)
  }

  /** Python calls the right operand's method first when its class is a proper
      subclass of the left operand's, as `Stack` is of `LinearCollection`. */
  predicate RightOperandFirst(lhsCls: OperandClass, rhsCls: OperandClass)
  {
    lhsCls == ExactlyLinearCollection && rhsCls == LinearCollectionSubclass
  }

  /** The operator `lhs == rhs` with a collection of class `lhsCls` on the left.
      The first method Python calls returns a boolean, so it decides: for
      `collection == stack` that is `stack.__eq__(collection)`, which sees an
      exact `LinearCollection`. `__eq__` looks at nothing but the class and the
      values of its argument, so the stack is passed on as its values. */
  function EqOperator(lhsCls: OperandClass, lhs: LinearCollection, rhs: Operand): (r: bool)
    requires lhsCls != OtherIterable
    ensures r <==>
      && rhs.items == lhs.data
      && rhs.cls != OtherIterable
      && (lhsCls == ExactlyLinearCollection || rhs.cls == ExactlyLinearCollection)
  {
    if RightOperandFirst(lhsCls, rhs.cls) then Eq(FromValues(rhs.items, false), Operand(lhsCls, lhs.data))
    else Eq(lhs, rhs)
  }

  /** The operator `lhs != rhs`, dispatched like `==` to a `__ne__` method. */
  function NeOperator(lhsCls: OperandClass, lhs: LinearCollection, rhs: Operand): (r: bool)
    requires lhsCls != OtherIterable
    ensures r <==>
      || rhs.items != lhs.data
      || rhs.cls == OtherIterable
      || (lhsCls != ExactlyLinearCollection && rhs.cls != ExactlyLinearCollection)
  {
    if RightOperandFirst(lhsCls, rhs.cls) then Ne(FromValues(rhs.items, false), Operand(lhsCls, lhs.data))
    else Ne(lhs, rhs)
  }

  /** Between two collections the operators are symmetric and `!=` is the
      negation of `==`, although the method `__eq__` is not symmetric. */
  lemma EqOperatorSymmetric(xCls: OperandClass, x: LinearCollection, yCls: OperandClass, y: LinearCollection)
    requires xCls != OtherIterable && yCls != OtherIterable
    ensures EqOperator(xCls, x, Operand(yCls, y.data)) == EqOperator(yCls, y, Operand(xCls, x.data))
    ensures NeOperator(xCls, x, Operand(yCls, y.data)) == !EqOperator(xCls, x, Operand(yCls, y.data))
  {
  }

  /** The first differing pair decides exactly as lexicographic order does. */
  lemma FirstDifferenceIsLex(a: seq<int>, b: seq<int>)
    ensures (match Mismatch(a, b) case Some(k) => a[k] < b[k] case None => |a| < |b|) <==> LexLess(a, b)
  {
    if LexLess(a, b) {
      if |a| < |b| && a == b[..|a|] {
        assert forall j :: 0 <= j < |a| ==> a[j] == b[..|a|][j];
      } else {
        var k :| 0 <= k < |a| && k < |b| && a[..k] == b[..k] && a[k] < b[k];
        assert forall j :: 0 <= j < k ==> a[..k][j] == b[..k][j];
        MismatchIsFirst(a, b, k);
      }
    }
    match Mismatch(a, b)
    case Some(k) =>
      assert a[..k] == b[..k];
    case None =>
      if |a| < |b| {
        assert a == b[..|a|];
      }
  }

  /** The scan finds no difference between equally long sequences exactly when
      they are equal. */
  lemma SameValuesIffNoMismatch(a: seq<int>, b: seq<int>)
    ensures Mismatch(a, b).None? && |a| == |b| <==> a == b
  {
    if Mismatch(a, b).None? && |a| == |b| {
      assert a == b;
    }
  }

  /** A position where `a` and `b` differ after agreeing on everything before
      it is the one the scan stops at. */
  lemma MismatchIsFirst(a: seq<int>, b: seq<int>, k: nat)
    requires k < |a| && k < |b| && a[k] != b[k]
    requires forall j :: 0 <= j < k ==> a[j] == b[j]
    ensures Mismatch(a, b) == Some(k)
  {
  }

  /** The first difference does not depend on which side is scanned first. */
  lemma MismatchSymmetric(a: seq<int>, b: seq<int>)
    ensures Mismatch(a, b) == Mismatch(b, a)
  {
    if Mismatch(a, b).Some? {
      MismatchIsFirst(b, a, Mismatch(a, b).value);
    }
  }

  /** `>` is the mirror image of `<`: `a > b` exactly when `b < a`. */
  lemma GtMirrorsLt(a: LinearCollection, b: LinearCollection)
    ensures Gt(a, b.data) <==> Lt(b, a.data)
    ensures Ge(a, b.data) <==> Le(b, a.data)
  {
  }

  /** `a <= b` is `a < b` or equal contents, and `a >= b` is `a > b` or equal
      contents. */
  lemma LeIsLtOrEqual(a: LinearCollection, b: LinearCollection)
    ensures Le(a, b.data) <==> Lt(a, b.data) || a.data == b.data
    ensures Ge(a, b.data) <==> Gt(a, b.data) || a.data == b.data
  {
  }

  /** Exactly one of `a < b`, equal contents, `b < a` holds. */
  lemma LtTrichotomy(a: LinearCollection, b: LinearCollection)
    ensures Lt(a, b.data) || a.data == b.data || Lt(b, a.data)
    ensures !(Lt(a, b.data) && a.data == b.data)
    ensures !(Lt(a, b.data) && Lt(b, a.data))
  {
    MismatchSymmetric(a.data, b.data);
    SameValuesIffNoMismatch(a.data, b.data);
  }

  /** `<=` is the negation of `>`, and `>=` the negation of `<`. */
  lemma LeIsNotGt(a: LinearCollection, b: LinearCollection)
    ensures Le(a, b.data) <==> !Gt(a, b.data)
    ensures Ge(a, b.data) <==> !Lt(a, b.data)
  {
    LtTrichotomy(a, b);
  }

  /** `<` is transitive. */
  lemma LtTransitive(a: LinearCollection, b: LinearCollection, c: LinearCollection)
    requires Lt(a, b.data) && Lt(b, c.data)
    ensures Lt(a, c.data)
  {
    var i := Diverge(a.data, b.data);
    var j := Diverge(b.data, c.data);
    if i < j {
      LtWhereTheyPart(a.data, c.data, i);
    } else if j < i {
      assert a.data[j] == b.data[j];
      LtWhereTheyPart(a.data, c.data, j);
    } else {
      LtWhereTheyPart(a.data, c.data, i);
    }
  }

  /** `a` is lexicographically below `c` when they agree up to `d` and then `a`
      holds the smaller value or ends. */
  lemma LtWhereTheyPart(a: seq<int>, c: seq<int>, d: nat)
    requires d <= |a| && d <= |c|
    requires forall t :: 0 <= t < d ==> a[t] == c[t]
    requires (d < |a| && d < |c| && a[d] < c[d]) || d == |a| < |c|
    ensures LexLess(a, c)
  {
    if d < |a| {
      assert a[..d] == c[..d];
    } else {
      assert a == c[..|a|];
    }
  }

  /** Where `a` and `b` part: their first difference, or the end of the shorter. */
  function Diverge(a: seq<int>, b: seq<int>): (d: nat)
    ensures d <= |a| && d <= |b|
    ensures forall j :: 0 <= j < d ==> a[j] == b[j]
    ensures LexLess(a, b) ==> (d < |a| && d < |b| && a[d] < b[d]) || (d == |a| < |b|)
  {
    FirstDifferenceIsLex(a, b);
    match Mismatch(a, b)
    case Some(k) => k
    case None => if |a| < |b| then |a| else |b|
  }
}
