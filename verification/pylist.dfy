/** Python list indexing, assignment and `pop`, with negative indices counting
    from the end and IndexError outside `[-len, len)`. */
module PyList {
  import opened Wrappers

  datatype PyError = IndexError

  /** Position addressed by Python index `i` in a list of length `n`. */
  function Resolve(n: nat, i: int): (r: Option<nat>)
    ensures r.Some? <==> -(n as int) <= i < n
    ensures r.Some? ==> r.value < n && (r.value == i || r.value == n + i)
  {
    if 0 <= i < n then Some(i)
    else if -(n as int) <= i < 0 then Some(n + i)
    else None
  }

  /** `s[i]`. */
  function At<T>(s: seq<T>, i: int): (r: Result<T, PyError>)
    ensures r.Ok? <==> -|s| <= i < |s|
    ensures r.Ok? ==> r.value == s[Resolve(|s|, i).value]
  {
    match Resolve(|s|, i)
    case Some(k) => Ok(s[k])
    case None => Err(IndexError)
  }

  /** `s[i] = x`: only the addressed position changes. */
  function Assign<T>(s: seq<T>, i: int, x: T): (r: Result<seq<T>, PyError>)
    ensures r.Ok? <==> -|s| <= i < |s|
    ensures r.Ok? ==> |r.value| == |s|
    ensures r.Ok? ==> forall j :: 0 <= j < |s| ==>
              r.value[j] == (if j == Resolve(|s|, i).value then x else s[j])
  {
    match Resolve(|s|, i)
    case Some(k) => Ok(s[k := x])
    case None => Err(IndexError)
  }

  /** `s.pop(i)`: the removed element and the list with later elements
      shifted down by one. */
  function Pop<T>(s: seq<T>, i: int): (r: Result<(T, seq<T>), PyError>)
    ensures r.Ok? <==> -|s| <= i < |s|
    ensures r.Ok? ==> var k := Resolve(|s|, i).value;
              && r.value.0 == s[k]
              && |r.value.1| == |s| - 1
              && (forall j :: 0 <= j < k ==> r.value.1[j] == s[j])
              && (forall j :: k <= j < |s| - 1 ==> r.value.1[j] == s[j + 1])
  {
    match Resolve(|s|, i)
    case Some(k) => Ok((s[k], s[..k] + s[k + 1..]))
    case None => Err(IndexError)
  }

  /** Popping an element and inserting it back at the same place restores the list. */
  lemma PopReinsert<T>(s: seq<T>, i: int)
    requires -|s| <= i < |s|
    ensures var k := Resolve(|s|, i).value;
            var (x, rest) := Pop(s, i).value;
            rest[..k] + [x] + rest[k..] == s
  {
    var k := Resolve(|s|, i).value;
    var (x, rest) := Pop(s, i).value;
    assert rest == s[..k] + s[k + 1..];
    assert rest[..k] == s[..k] && rest[k..] == s[k + 1..];
    assert s == s[..k] + [s[k]] + s[k + 1..];
  }

  /** Reading back an assigned position gives the assigned value. */
  lemma AssignThenAt<T>(s: seq<T>, i: int, x: T)
    requires -|s| <= i < |s|
    ensures At(Assign(s, i, x).value, i) == Ok(x)
  {
  }
}
