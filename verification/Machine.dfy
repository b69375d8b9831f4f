/** Go's fixed-width integers and the overflow-checked arithmetic built on them. */
module Machine {
  const TWO32: int := 0x1_0000_0000
  const TWO63: int := 0x8000_0000_0000_0000
  const TWO64: int := 0x1_0000_0000_0000_0000

  type uint32 = x: int | 0 <= x < TWO32
  type uint64 = x: int | 0 <= x < TWO64
  type int64 = x: int | -TWO63 <= x < TWO63

  datatype Option<+T> = None | Some(value: T)

  /** The `(value, ok)` pair the checked operations return. */
  datatype Checked = Fits(value: uint64) | Wrapped

  function AddUint64(a: uint64, b: uint64): (r: Checked)
    ensures r == if a + b < TWO64 then Fits(a + b) else Wrapped
  {
    var sum := (a + b) % TWO64;
    if sum < a then Wrapped else Fits(sum)
  }

  function MulUint64(a: uint64, b: uint64): (r: Checked)
    ensures r == if a * b < TWO64 then Fits(a * b) else Wrapped
  {
    if a == 0 || b == 0 then
      Fits(0)
    else
      QuotientBound(a, b);
      if a > (TWO64 - 1) / b then Wrapped else Fits((a * b) % TWO64)
  }

  /** The division guard is exact: it refuses precisely the products that do not fit. */
  lemma QuotientBound(a: uint64, b: uint64)
    requires b > 0
    ensures a > (TWO64 - 1) / b <==> a * b >= TWO64
  {
    var q := (TWO64 - 1) / b;
    if a > q {
      assert a * b >= (q + 1) * b;
    } else {
      assert a * b <= q * b;
    }
  }

  ghost predicate Distinct<T>(s: seq<T>) {
    forall i, j :: 0 <= i < j < |s| ==> s[i] != s[j]
  }

  function Max(a: int, b: int): int {
    if a < b then b else a
  }
}
