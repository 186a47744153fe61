/**
 * Truth-value assignments for a range of BDD variables: an integer counter is
 * spelled out in binary, most significant bit first, one bit per variable in
 * evaluation order.
 */
module VarManipulation {
  import Numerals
  import StringManipulation

  function Pow2(n: nat): (r: nat)
    ensures r >= 1
  {
    if n == 0 then 1 else 2 * Pow2(n - 1)
  }

  /** The bits of num modulo 2^size, most significant first (the reference definition). */
  function Binary(num: int, size: nat): (r: seq<int>)
    ensures |r| == size && forall i :: 0 <= i < size ==> r[i] == 0 || r[i] == 1
    decreases size
  {
    if size == 0 then [] else Binary(num / 2, size - 1) + [num % 2]
  }

  /** The number a bit list spells, most significant bit first: the sum of bit_i * 2^(size-1-i). */
  function MsbValue(bits: seq<int>): int
  {
    if bits == [] then 0 else 2 * MsbValue(bits[..|bits| - 1]) + bits[|bits| - 1]
  }

  function Reverse(s: seq<int>): (r: seq<int>)
    ensures |r| == |s|
  {
    if s == [] then [] else Reverse(s[1..]) + [s[0]]
  }

  /** A quotient and remainder in range are Python's (and Dafny's) `//` and `%`. */
  lemma DivModUnique(a: int, m: int, q: int, v: int)
    requires m > 0 && a == q * m + v && 0 <= v < m
    ensures q == a / m && v == a % m
  {
    var q0, v0 := a / m, a % m;
    assert q * m - q0 * m == v0 - v;
    assert (q - q0) * m == v0 - v by {
      assert (q - q0) * m == q * m - q0 * m;
    }
    if q > q0 {
      MulAtLeast(q - q0, m);
    } else if q < q0 {
      MulAtLeast(q0 - q, m);
    }
  }

  lemma MulAtLeast(k: int, m: int)
    requires k >= 1 && m > 0
    ensures k * m >= m
  {
    assert k * m == (k - 1) * m + m;
  }

  /** The bits spell num modulo 2^size. */
  lemma {:induction false} BinaryValue(num: int, size: nat)
    ensures MsbValue(Binary(num, size)) == num % Pow2(size)
    decreases size
  {
    if size > 0 {
      var bits := Binary(num, size);
      assert bits[..|bits| - 1] == Binary(num / 2, size - 1);
      BinaryValue(num / 2, size - 1);
      var h := num / 2;
      var p := Pow2(size - 1);
      var r := h % p;
      assert h == (h / p) * p + r;
      assert num == 2 * h + num % 2;
      assert num == (h / p) * Pow2(size) + (2 * r + num % 2);
      DivModUnique(num, Pow2(size), h / p, 2 * r + num % 2);
    }
  }

  /** Below 2^size the bits spell num itself. */
  lemma BinaryOfSmall(num: int, size: nat)
    requires 0 <= num < Pow2(size)
    ensures MsbValue(Binary(num, size)) == num
  {
    BinaryValue(num, size);
    DivModUnique(num, Pow2(size), 0, num);
  }

  /**
   * `assign_variables(num, size)`: the loop collects the remainders of
   * repeated halving, least significant first, and reverses them.
   */
  method AssignVariables(num: int, size: nat) returns (r: seq<int>)
    ensures r == Binary(num, size)
  {
    var result: seq<int> := [];
    var division := num;
    for k := 0 to size
      invariant |result| == k
      invariant Binary(num, size) == Binary(division, size - k) + Reverse(result)
    {
      var remainder := division % 2;
      assert Binary(division, size - k) == Binary(division / 2, size - k - 1) + [remainder];
      division := division / 2;
      assert Reverse(result + [remainder]) == [remainder] + Reverse(result) by {
        ReverseAppend(result, remainder);
      }
      result := result + [remainder];
    }
    r := Reverse(result);
  }

  lemma {:induction false} ReverseAppend(s: seq<int>, x: int)
    ensures Reverse(s + [x]) == [x] + Reverse(s)
  {
    if s != [] {
      assert (s + [x])[1..] == s[1..] + [x];
      ReverseAppend(s[1..], x);
    } else {
      assert Reverse([x]) == Reverse([]) + [x];
    }
  }

  /** The bit of variable i (numbered from 1). */
  function BitAt(bits: seq<int>, i: int): int
  {
    if 1 <= i <= |bits| then bits[i - 1] else 0
  }

  /**
   * `assign_variables_dict(num, size)`: the same bits keyed by variable index
   * 1..size.
   */
  method AssignVariablesDict(num: int, size: nat) returns (d: map<int, int>)
    ensures forall i :: i in d <==> 1 <= i <= size
    ensures forall i :: 1 <= i <= size ==> d[i] == Binary(num, size)[i - 1]
  {
    var bits := AssignVariables(num, size);
    d := map i | 1 <= i <= size :: BitAt(bits, i);
  }

  /** `create_var_order_dict(prefix, count, start)`: the names prefix+start, ..., prefix+(start+count-1). */
  function CreateVarOrderDict(prefix: string, count: nat, start: int): (r: seq<string>)
    ensures |r| == count
    ensures forall i :: 0 <= i < count ==> r[i] == prefix + Numerals.IntToString(i + start)
  {
    StringManipulation.CreateVarOrderList(prefix, count, start)
  }

  /**
   * `get_var_prefix`: "" for no names; otherwise the first name with its
   * trailing digits cut off, so what is cut off is all digits and the prefix
   * does not end in a digit.
   */
  function GetVarPrefix(vars: seq<string>): (r: string)
    ensures vars == [] ==> r == ""
    ensures vars != [] ==>
              && |r| <= |vars[0]| && r == vars[0][..|r|]
              && Numerals.AllDigits(vars[0][|r|..]) && (r != [] ==> !Numerals.IsDigit(r[|r| - 1]))
  {
    if vars == [] then ""
    else
      StringManipulation.PrefixSplit(vars[0]);
      StringManipulation.VarPrefixFromList(vars)
  }
}
