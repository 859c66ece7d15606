/** The gRPC calculator service: each call answers through a response
    observer with one result and then completion. */
module GrpcCalculator {
  import opened Int32

  /** What the service pushes into the response observer. */
  datatype Event = OnNext(res: int) | OnCompleted

  /** One `onNext` carrying `res`, then one `onCompleted`. */
  predicate SingleReply(events: seq<Event>, res: int) {
    events == [OnNext(res), OnCompleted]
  }

  /** The events of a call together with how long it sleeps before sending them. */
  datatype Reply = Reply(events: seq<Event>, delayMs: nat)

  /** `add`: the 32-bit sum; a 5 s pause when both arguments exceed 100. */
  function Add(arg1: int, arg2: int): (r: Reply)
    requires InRange(arg1) && InRange(arg2)
    ensures exists res :: SingleReply(r.events, res) && InRange(res) && (res - (arg1 + arg2)) % Modulus == 0
    ensures InRange(arg1 + arg2) ==> SingleReply(r.events, arg1 + arg2)
    ensures r.delayMs == (if arg1 > 100 && arg2 > 100 then 5000 else 0)
  {
    Reply([OnNext(Wrap(arg1 + arg2)), OnCompleted], if arg1 > 100 && arg2 > 100 then 5000 else 0)
  }

  /** `subtract`: the 32-bit difference, with no pause. */
  function Subtract(arg1: int, arg2: int): (r: Reply)
    requires InRange(arg1) && InRange(arg2)
    ensures exists res :: SingleReply(r.events, res) && InRange(res) && (res - (arg1 - arg2)) % Modulus == 0
    ensures InRange(arg1 - arg2) ==> SingleReply(r.events, arg1 - arg2)
    ensures r.delayMs == 0
  {
    Reply([OnNext(Wrap(arg1 - arg2)), OnCompleted], 0)
  }

  /** Whether the pause happens or not, `add` sends the same result. */
  lemma AddDelayIrrelevant(a1: int, a2: int, b1: int, b2: int)
    requires InRange(a1) && InRange(a2) && InRange(b1) && InRange(b2)
    requires a1 + a2 == b1 + b2
    ensures Add(a1, a2).events == Add(b1, b2).events
  {
  }

  /** `add` overflows like Java: a sum past either end of the range comes
      back 2^32 away, so the largest int plus one is the smallest. */
  lemma AddOverflow(arg1: int, arg2: int)
    requires InRange(arg1) && InRange(arg2)
    ensures arg1 + arg2 > MaxValue ==> SingleReply(Add(arg1, arg2).events, arg1 + arg2 - Modulus)
    ensures arg1 + arg2 < MinValue ==> SingleReply(Add(arg1, arg2).events, arg1 + arg2 + Modulus)
    ensures SingleReply(Add(MaxValue, 1).events, MinValue)
  {
    WrapOverflow(arg1 + arg2);
    IncrementOverflows();
  }

  /** The exact product of a list of integers; 1 for the empty list. */
  function Product(xs: seq<int>): int {
    if xs == [] then 1 else Product(xs[..|xs| - 1]) * xs[|xs| - 1]
  }

  lemma {:induction false} ProductAppend(a: seq<int>, b: seq<int>)
    ensures Product(a + b) == Product(a) * Product(b)
  {
    if b == [] {
      assert a + b == a;
    } else {
      var b' := b[..|b| - 1];
      var x := b[|b| - 1];
      assert (a + b)[..|a + b| - 1] == a + b';
      ProductAppend(a, b');
      calc {
        Product(a + b);
        Product(a + b') * x;
        (Product(a) * Product(b')) * x;
        Product(a) * (Product(b') * x);
      }
    }
  }

  lemma MulSwap(p: int, x: int, q: int)
    ensures (p * x) * q == (p * q) * x
  {
  }

  /** Taking one factor out of the middle of the list. */
  lemma {:induction false} ProductRemove(b: seq<int>, j: nat)
    requires j < |b|
    ensures Product(b) == Product(b[..j] + b[j + 1..]) * b[j]
  {
    var x := b[j];
    var left, right := b[..j], b[j + 1..];
    assert b == (left + [x]) + right;
    ProductAppend(left + [x], right);
    ProductAppend(left, [x]);
    assert [x][..0] == [];
    assert Product([x]) == x;
    ProductAppend(left, right);
    MulSwap(Product(left), x, Product(right));
  }

  /** The product does not depend on the order of the factors. */
  lemma {:induction false} ProductPermutation(a: seq<int>, b: seq<int>)
    requires multiset(a) == multiset(b)
    ensures Product(a) == Product(b)
    decreases |a|
  {
    if a == [] {
      assert |b| == |multiset(b)| == 0;
    } else {
      var a' := a[..|a| - 1];
      var x := a[|a| - 1];
      assert a == a' + [x];
      assert x in multiset(b);
      var j :| 0 <= j < |b| && b[j] == x;
      var b' := b[..j] + b[j + 1..];
      assert b == b[..j] + [x] + b[j + 1..];
      assert multiset(b') == multiset(b) - multiset{x};
      assert multiset(a') == multiset(a) - multiset{x};
      ProductPermutation(a', b');
      ProductRemove(b, j);
    }
  }

  /** `multiply`: `val *= n` over the arguments, starting from 1, in Java
      `int` arithmetic. */
  method Multiply(args: seq<int>) returns (events: seq<Event>)
    requires forall i :: 0 <= i < |args| ==> InRange(args[i])
    ensures SingleReply(events, Wrap(Product(args)))
  {
    var val := 1;
    for i := 0 to |args|
      invariant val == Wrap(Product(args[..i]))
    {
      assert args[..i + 1][..i] == args[..i];
      WrapMulLeft(Product(args[..i]), args[i]);
      val := Wrap(val * args[i]);
    }
    assert args[..|args|] == args;
    events := [OnNext(val), OnCompleted];
  }

  /** Multiplying no numbers answers 1. */
  lemma MultiplyEmpty()
    ensures Wrap(Product([])) == 1
  {
  }

  /** Reordering the arguments of `multiply` does not change its answer. */
  lemma MultiplyOrderIndependent(a: seq<int>, b: seq<int>)
    requires multiset(a) == multiset(b)
    ensures Wrap(Product(a)) == Wrap(Product(b))
  {
    ProductPermutation(a, b);
  }
}

/** The Thrift calculator handler: 32-bit `add` and `subtract`, and an `id`
    fixed when the handler is made. */
module ThriftCalculator {
  import opened Int32

  /** The handler's only state is its `id`, given to the constructor. */
  datatype CalculatorHandler = CalculatorHandler(id: int)

  /** A result and the pause taken before returning it. */
  datatype Reply = Reply(value: int, delayMs: nat)

  function Delay(n1: int, n2: int): nat {
    if n1 > 1000 || n2 > 1000 then 6000 else 0
  }

  /** `add(n1, n2)`: the Java `int` sum. */
  function Add(h: CalculatorHandler, n1: int, n2: int): (r: Reply)
    requires InRange(n1) && InRange(n2)
    ensures InRange(r.value) && (r.value - (n1 + n2)) % Modulus == 0
    ensures InRange(n1 + n2) ==> r.value == n1 + n2
    ensures r.delayMs == (if n1 > 1000 || n2 > 1000 then 6000 else 0)
  {
    Reply(Wrap(n1 + n2), Delay(n1, n2))
  }

  /** `subtract(num1, num2)`: the Java `int` difference. */
  function Subtract(h: CalculatorHandler, num1: int, num2: int): (r: Reply)
    requires InRange(num1) && InRange(num2)
    ensures InRange(r.value) && (r.value - (num1 - num2)) % Modulus == 0
    ensures InRange(num1 - num2) ==> r.value == num1 - num2
    ensures r.delayMs == (if num1 > 1000 || num2 > 1000 then 6000 else 0)
  {
    Reply(Wrap(num1 - num2), Delay(num1, num2))
  }

  lemma AddCommutative(h: CalculatorHandler, n1: int, n2: int)
    requires InRange(n1) && InRange(n2)
    ensures Add(h, n1, n2) == Add(h, n2, n1)
  {
  }

  /** Subtraction undoes addition, even across overflow. */
  lemma {:induction false} SubtractUndoesAdd(h: CalculatorHandler, n1: int, n2: int)
    requires InRange(n1) && InRange(n2)
    ensures Subtract(h, Add(h, n1, n2).value, n2).value == n1
  {
    var s := Add(h, n1, n2).value;
    var k := (s - (n1 + n2)) / Modulus;
    assert s - n2 - n1 == k * Modulus;
    assert ((s - n2) - n1) % Modulus == 0;
    WrapCongruent(s - n2, n1);
    WrapIdentity(n1);
  }

  /** The result never depends on the handler, so `id` only names it in the log. */
  lemma ResultIgnoresId(h1: CalculatorHandler, h2: CalculatorHandler, n1: int, n2: int)
    requires InRange(n1) && InRange(n2)
    ensures Add(h1, n1, n2) == Add(h2, n1, n2) && Subtract(h1, n1, n2) == Subtract(h2, n1, n2)
  {
  }
}

/** The Ice calculator servant: `add` and `subtract` computed in `int` and
    returned as `long`, and a counter of `op` calls. */
module IceCalculator {
  import opened Int32

  class CalcI {
    var counter: int

    constructor()
      ensures counter == 0
    {
      counter := 0;
    }

    /** `add(a, b)`: `a + b` overflows in `int` before it is widened to `long`. */
    function Add(a: int, b: int): (r: int)
      requires InRange(a) && InRange(b)
      ensures InRange(r) && (r - (a + b)) % Modulus == 0
      ensures InRange(a + b) ==> r == a + b
    {
      Wrap(a + b)
    }

    /** `subtract(a, b)`, likewise. */
    function Subtract(a: int, b: int): (r: int)
      requires InRange(a) && InRange(b)
      ensures InRange(r) && (r - (a - b)) % Modulus == 0
      ensures InRange(a - b) ==> r == a - b
    {
      Wrap(a - b)
    }

    /** `op`: increments the counter and logs the new value. */
    method Op() returns (logged: int)
      modifies this
      ensures counter == old(counter) + 1
      ensures logged == counter
    {
      counter := counter + 1;
      logged := counter;
    }
  }

  /** The long result of `add` cannot reach past the `int` range: a sum
      that overflows `int` comes back 2^32 away instead of being widened. */
  lemma AddWrapsBeforeWidening(c: CalcI, a: int, b: int)
    requires InRange(a) && InRange(b)
    ensures a + b > MaxValue ==> c.Add(a, b) == a + b - Modulus
    ensures a + b < MinValue ==> c.Add(a, b) == a + b + Modulus
    ensures c.Add(MaxValue, 1) == MinValue
    ensures c.Add(MinValue, -1) == MaxValue
  {
    WrapOverflow(a + b);
    IncrementOverflows();
  }
}
