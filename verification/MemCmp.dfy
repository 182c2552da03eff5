/** The comparison that takes the same time whatever the buffers hold. */
module MemCmp {

  // The sign of the first difference from index `i` on.
  function Compare(a: seq<bv8>, b: seq<bv8>, i: nat): int
    requires i <= |a| == |b|
    decreases |a| - i
  {
    if i == |a| then 0 else if a[i] < b[i] then -1 else if b[i] < a[i] then 1 else Compare(a, b, i + 1)
  }

  predicate Same(a: seq<bv8>, b: seq<bv8>, i: nat, j: nat)
    requires i <= j <= |a| == |b|
  {
    forall k | i <= k < j :: a[k] == b[k]
  }

  // `a` is the smaller at the first place, from index `i` on, where the two differ.
  ghost predicate Below(a: seq<bv8>, b: seq<bv8>, i: nat)
    requires i <= |a| == |b|
  {
    exists j | i <= j < |a| :: Same(a, b, i, j) && a[j] < b[j]
  }

  lemma {:induction false} CompareMeans(a: seq<bv8>, b: seq<bv8>, i: nat)
    requires i <= |a| == |b|
    ensures Compare(a, b, i) == 0 <==> Same(a, b, i, |a|)
    ensures Compare(a, b, i) < 0 <==> Below(a, b, i)
    ensures Compare(a, b, i) > 0 <==> Below(b, a, i)
    decreases |a| - i
  {
    if i == |a| {
    } else if a[i] != b[i] {
      BelowHere(a, b, i);
      BelowHere(b, a, i);
    } else {
      CompareMeans(a, b, i + 1);
      BelowNext(a, b, i);
      BelowNext(b, a, i);
    }
  }

  lemma BelowHere(a: seq<bv8>, b: seq<bv8>, i: nat)
    requires i < |a| == |b| && a[i] != b[i]
    ensures Below(a, b, i) <==> a[i] < b[i]
  {
    assert Same(a, b, i, i);
  }

  lemma BelowNext(a: seq<bv8>, b: seq<bv8>, i: nat)
    requires i < |a| == |b| && a[i] == b[i]
    ensures Below(a, b, i) <==> Below(a, b, i + 1)
  {
    assert forall j | i < j <= |a| :: Same(a, b, i, j) == Same(a, b, i + 1, j);
  }

  // The sign of a 32-bit two's complement number.
  function Sign(x: bv32): int {
    if x == 0 then 0 else if x < 0x8000_0000 then 1 else -1
  }

  // One turn: a difference replaces the result, and no difference keeps it.
  function Fold(res: bv32, a: bv8, b: bv8): bv32 {
    var diff := (a as bv32) - (b as bv32);
    var none: bv32 := if diff == 0 then 1 else 0;
    (res & (0 - none)) | diff
  }

  lemma Differs(a: bv8, b: bv8)
    ensures var diff := (a as bv32) - (b as bv32);
            if a == b then diff == 0 else if a < b then diff >= 0x8000_0000 else 0 < diff < 0x8000_0000
  {
  }

  lemma KeptOrReplaced(res: bv32, a: bv8, b: bv8)
    ensures Fold(res, a, b) == if a == b then res else (a as bv32) - (b as bv32)
  {
  }

  lemma FoldSign(res: bv32, a: bv8, b: bv8)
    ensures Sign(Fold(res, a, b)) == if a < b then -1 else if b < a then 1 else Sign(res)
  {
    hide Fold;
    Differs(a, b);
    KeptOrReplaced(res, a, b);
    if a == b {
      assert Fold(res, a, b) == res;
    }
  }

  method CstTimeMemCmp(m1: array<bv8>, m2: array<bv8>, length: nat) returns (r: int)
    requires length <= m1.Length && length <= m2.Length
    ensures r == Compare(m1[..length], m2[..length], 0)
  {
    hide Fold, Sign;
    var n, res: bv32 := length, 0;
    ghost var a, b := m1[..length], m2[..length];
    ZeroSign();
    if n > 0 {
      var more := true;
      while more
        invariant n <= length && more == (n != 0) && Sign(res) == Compare(a, b, n)
        decreases n
      {
        n := n - 1;
        FoldSign(res, m1[n], m2[n]);
        res := Fold(res, m1[n], m2[n]);
        more := n != 0;
      }
    }
    r := Sign(res);
  }

  lemma ZeroSign()
    ensures Sign(0) == 0
  {
  }

  // Two buffers are equal exactly when they hold the same bytes.
  method IsEqual(b1: array<bv8>, b2: array<bv8>) returns (same: bool)
    ensures same <==> b1[..] == b2[..]
  {
    if b2.Length != b1.Length {
      return false;
    }
    var r := CstTimeMemCmp(b1, b2, b1.Length);
    CompareMeans(b1[..], b2[..], 0);
    assert b1[..b1.Length] == b1[..] && b2[..b1.Length] == b2[..];
    assert Same(b1[..], b2[..], 0, b1.Length) <==> b1[..] == b2[..];
    return r == 0;
  }
}
