/** Product terms over `n` Boolean variables (external/minbool/minbool.h, MinTerm).
    An unsigned integer is represented by the set of positions of its one bits, so `|`, `& ~`,
    `^` and popcount become union, difference, symmetric difference and cardinality. */
module MinTerms {

  type Value = set<nat>

  /** The mask `(1 << n) - 1`. */
  function Bits(n: nat): (r: Value)
    ensures forall i: nat :: i in r <==> i < n
  {
    if n == 0 then {} else Bits(n - 1) + {n - 1}
  }

  lemma {:induction false} BitsCard(n: nat)
    ensures |Bits(n)| == n
  {
    if n == 0 {
    } else {
      BitsCard(n - 1);
    }
  }

  datatype Bit = Zero | One | Dash

  datatype MinTerm = MinTerm(value: Value, dash: Value) {

    /** What the constructor asserts, plus the disjointness every term built by `Combine` has. */
    ghost predicate Valid(n: nat) {
      value <= Bits(n) && dash <= Bits(n) && value !! dash
    }

    function At(i: nat): Bit {
      if i in dash then Dash else if i in value then One else Zero
    }

    function Combine(other: MinTerm): MinTerm {
      var mask := (value - other.value) + (other.value - value)
                + (dash - other.dash) + (other.dash - dash);
      MinTerm(value - mask, dash + mask)
    }
  }

  /** It does not matter which of two terms is combined with the other. */
  lemma CombineSwap(a: MinTerm, b: MinTerm)
    ensures a.Combine(b) == b.Combine(a)
  {
    var ab, ba := a.Combine(b), b.Combine(a);
    assert ab.value == ba.value && ab.dash == ba.dash;
  }

  /** The product `t` is true on the assignment `v`. */
  predicate Covers(t: MinTerm, v: Value) {
    t.value <= v <= t.value + t.dash
  }

  /** The values passed to the callback of `foreach_value`, in call order. */
  function ForEachValue(t: MinTerm, n: nat, bit: nat, cur: Value): seq<Value>
    requires bit <= n
    decreases n - bit
  {
    if bit == n then [cur]
    else match t.At(bit)
      case Dash => ForEachValue(t, n, bit + 1, cur) + ForEachValue(t, n, bit + 1, cur + {bit})
      case One => ForEachValue(t, n, bit + 1, cur + {bit})
      case Zero => ForEachValue(t, n, bit + 1, cur)
  }

  function Values(t: MinTerm, n: nat): seq<Value> {
    ForEachValue(t, n, 0, {})
  }

  ghost predicate NoDuplicates<T>(s: seq<T>) {
    forall i, j :: 0 <= i < j < |s| ==> s[i] != s[j]
  }

  /** How often `x` is listed. */
  ghost function Count<T>(s: seq<T>, x: T): nat {
    multiset(s)[x]
  }

  function Elements<T(==)>(s: seq<T>): set<T> {
    set x | x in s
  }

  /** `v` continues `cur` (which fixes the bits below `bit`) and agrees with `t` from `bit` on. */
  ghost predicate Extends(t: MinTerm, n: nat, bit: nat, cur: Value, v: Value) {
    && v <= Bits(n)
    && (forall i: nat :: i < bit ==> (i in v <==> i in cur))
    && (forall i: nat :: bit <= i < n ==> (t.At(i) == One ==> i in v) && (t.At(i) == Zero ==> i !in v))
  }

  lemma ExtendsStep(t: MinTerm, n: nat, bit: nat, cur: Value, v: Value)
    requires bit < n && cur <= Bits(bit)
    ensures Extends(t, n, bit, cur, v) <==>
            if bit in v then t.At(bit) != Zero && Extends(t, n, bit + 1, cur + {bit}, v)
            else t.At(bit) != One && Extends(t, n, bit + 1, cur, v)
  {
    var next := if bit in v then cur + {bit} else cur;
    assert forall i: nat :: i < bit ==> (i in next <==> i in cur);
  }

  lemma {:induction false} ForEachValueExact(t: MinTerm, n: nat, bit: nat, cur: Value, v: Value)
    requires bit <= n && cur <= Bits(bit)
    ensures v in ForEachValue(t, n, bit, cur) <==> Extends(t, n, bit, cur, v)
    decreases n - bit
  {
    if bit == n {
      assert (forall i: nat :: i < n ==> (i in v <==> i in cur)) && v <= Bits(n) ==> v == cur;
    } else {
      ForEachValueExact(t, n, bit + 1, cur, v);
      ForEachValueExact(t, n, bit + 1, cur + {bit}, v);
      ExtendsStep(t, n, bit, cur, v);
      assert bit !in cur;
    }
  }

  lemma {:induction false} ForEachValueDistinct(t: MinTerm, n: nat, bit: nat, cur: Value)
    requires bit <= n && cur <= Bits(bit)
    ensures NoDuplicates(ForEachValue(t, n, bit, cur))
    decreases n - bit
  {
    if bit == n {
    } else {
      ForEachValueDistinct(t, n, bit + 1, cur);
      ForEachValueDistinct(t, n, bit + 1, cur + {bit});
      if t.At(bit) == Dash {
        var lo, hi := ForEachValue(t, n, bit + 1, cur), ForEachValue(t, n, bit + 1, cur + {bit});
        forall i, j | 0 <= i < |lo| && 0 <= j < |hi| ensures lo[i] != hi[j] {
          ForEachValueExact(t, n, bit + 1, cur, lo[i]);
          ForEachValueExact(t, n, bit + 1, cur + {bit}, hi[j]);
        }
      }
    }
  }

  /** `foreach_value` visits exactly the assignments on which the term is true, each once. */
  lemma ValuesExact(t: MinTerm, n: nat)
    requires t.Valid(n)
    ensures forall v :: v in Values(t, n) <==> Covers(t, v)
    ensures NoDuplicates(Values(t, n))
  {
    ForEachValueDistinct(t, n, 0, {});
    forall v ensures v in Values(t, n) <==> Covers(t, v) {
      ForEachValueExact(t, n, 0, {}, v);
      if Covers(t, v) {
        assert Extends(t, n, 0, {}, v);
      }
      if Extends(t, n, 0, {}, v) {
        forall i | i in t.value ensures i in v { assert t.At(i) == One; }
        forall i | i in v ensures i in t.value + t.dash { assert t.At(i) != Zero; }
      }
    }
  }

  /** The term-wise test of `eval_boolean`: walk over the bits, conjoining the literals. */
  method EvalProduct(t: MinTerm, n: nat, v: Value) returns (prod: bool)
    requires t.Valid(n) && v <= Bits(n)
    ensures prod <==> Covers(t, v)
  {
    prod := true;
    for i := 0 to n
      invariant prod <==> forall k: nat :: k < i ==> (t.At(k) == One ==> k in v) && (t.At(k) == Zero ==> k !in v)
    {
      var bit := i in v;
      if t.At(i) == One {
        prod := prod && bit;
      } else if t.At(i) == Zero {
        prod := prod && !bit;
      }
    }
    if prod {
      forall i | i in t.value ensures i in v { assert t.At(i) == One; }
      forall i | i in v ensures i in t.value + t.dash { assert t.At(i) != Zero; }
    }
  }

  ghost predicate Eval(solution: seq<MinTerm>, v: Value) {
    exists t :: t in solution && Covers(t, v)
  }

  method EvalBoolean(solution: seq<MinTerm>, n: nat, v: Value) returns (r: bool)
    requires forall t :: t in solution ==> t.Valid(n)
    requires v <= Bits(n)
    ensures r <==> Eval(solution, v)
  {
    for k := 0 to |solution|
      invariant forall j :: 0 <= j < k ==> !Covers(solution[j], v)
    {
      var prod := EvalProduct(solution[k], n, v);
      if prod {
        return true;
      }
    }
    return false;
  }
}
