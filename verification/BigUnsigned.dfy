/** Nonnegative integers of unlimited size, stored as a heap array of blocks. */
module BigUnsigneds {
  import opened Arithmetic
  import opened Positional
  import opened Bits
  import opened Blocks

  datatype Comparison = Less | Equal | Greater

  class BigUnsigned {
    var cap: nat
    var len: nat
    var blk: array<Block>

    // The array can hold the logical length.
    ghost predicate Rep()
      reads this
    {
      len <= cap == blk.Length
    }

    // The contract of every public operation: no leading zero blocks.
    ghost predicate Valid()
      reads this, blk
      ensures Valid() ==> Rep()
    {
      Rep() && Canonical(blk[..len])
    }

    // The number this object stands for.
    ghost function Value(): nat
      requires Rep()
      reads this, blk
    {
      Number(blk[..len])
    }

    // Two objects never share an array.
    ghost predicate Apart(x: BigUnsigned)
      reads this, x
    {
      x == this || x.blk != blk
    }

    constructor ()
      ensures Valid() && Value() == 0 && fresh(blk)
    {
      cap, len, blk := 0, 0, new Block[0];
    }

    // From a primitive unsigned integer.
    constructor FromBlock(x: Block)
      ensures Valid() && Value() == x && fresh(blk)
    {
      cap, len := if x == 0 then 0 else 1, if x == 0 then 0 else 1;
      blk := new Block[if x == 0 then 0 else 1];
      new;
      if x != 0 {
        blk[0] := x;
        NumberPrefix(blk[..1], 0);
        assert blk[..1][..1] == blk[..1] && P(0) == 1;
      }
    }

    constructor Copy(x: BigUnsigned)
      requires x.Valid()
      ensures Valid() && Value() == x.Value() && fresh(blk)
    {
      cap, len := x.len, x.len;
      blk := new Block[x.len];
      new;
      for i := 0 to len
        invariant Rep() && fresh(blk) && len == x.len
        invariant blk[..i] == x.blk[..i]
      {
        blk[i] := x.blk[i];
      }
      assert blk[..len] == x.blk[..x.len];
    }

    // Makes room for c blocks; the contents may be lost.
    method Allocate(c: nat)
      requires cap == blk.Length
      modifies this
      ensures cap == blk.Length >= c && len == old(len)
      ensures blk == old(blk) || fresh(blk)
    {
      if c > cap {
        cap := c;
        blk := new Block[cap];
      }
    }

    // Makes room for c blocks and keeps the contents.
    method AllocateAndCopy(c: nat)
      requires Rep()
      modifies this
      ensures Rep() && cap >= c && len == old(len) && blk[..len] == old(blk[..len])
      ensures blk == old(blk) || fresh(blk)
    {
      if c > cap {
        var oldBlk := blk;
        cap := c;
        blk := new Block[cap];
        for i := 0 to len
          invariant Rep() && fresh(blk) && len == old(len) <= oldBlk.Length && oldBlk == old(blk) && cap == c
          invariant blk[..i] == old(blk[..len])[..i]
        {
          blk[i] := oldBlk[i];
        }
      }
    }

    method Assign(x: BigUnsigned)
      requires Rep() && x.Rep() && Apart(x)
      modifies this, blk
      ensures Rep() && len == x.len && blk[..len] == old(x.blk[..x.len])
      ensures blk == old(blk) || fresh(blk)
      ensures this == x ==> blk == old(blk)
    {
      if this == x { return; }
      len := x.len;
      Allocate(len);
      for i := 0 to len
        invariant Rep() && (blk == old(blk) || fresh(blk)) && len == x.len
        invariant blk[..i] == x.blk[..i]
      {
        blk[i] := x.blk[i];
      }
    }

    // Equality of blocks; between canonical numbers, equality of values.
    method Equals(x: BigUnsigned) returns (r: bool)
      requires Valid() && x.Valid()
      ensures r <==> Value() == x.Value()
    {
      if len != x.len {
        LengthsDiffer(blk[..len], x.blk[..x.len]);
        return false;
      }
      for i := 0 to len
        invariant forall k :: 0 <= k < i ==> blk[k] == x.blk[k]
      {
        if blk[i] != x.blk[i] {
          BlocksDiffer(blk[..len], x.blk[..x.len], i);
          return false;
        }
      }
      assert blk[..len] == x.blk[..x.len];
      return true;
    }

    // Removes every leading zero block.
    method ZapLeadingZeros()
      requires Rep()
      modifies this`len
      ensures Valid() && Value() == old(Value()) && len <= old(len)
    {
      while len > 0 && blk[len - 1] == 0
        invariant Rep() && Value() == old(Value()) && len <= old(len)
      {
        assert blk[..len][..len - 1] == blk[..len - 1];
        len := len - 1;
      }
    }

    // Removes one leading zero block, where no more than one is possible.
    method ZapOneLeadingZero()
      requires Rep() && len > 0 && (len > 1 ==> Value() >= P(len - 2))
      modifies this`len
      ensures Valid() && Value() == old(Value()) && len <= old(len)
    {
      if blk[len - 1] == 0 {
        assert blk[..len][..len - 1] == blk[..len - 1];
        len := len - 1;
      }
      if len > 0 { TopBlock(blk[..len]); }
    }

    // ---- blocks and bits ----

    function GetBlock(i: nat): Block
      requires Rep()
      reads this, blk
    {
      if i >= len then 0 else blk[i]
    }

    method SetBlock(i: nat, newBlock: Block)
      requires Valid()
      modifies this, blk
      ensures Valid() && (blk == old(blk) || fresh(blk))
      ensures Value() == old(Value()) + (newBlock - old(GetBlock(i))) * P(i)
    {
      hide Number, P;
      ghost var s := blk[..len];
      if newBlock == 0 {
        if i < len {
          NumberUpdate(s, i, 0);
          blk[i] := 0;
          assert blk[..len] == s[i := 0];
          ZapLeadingZeros();
        }
      } else {
        if i >= len {
          ExtendTo(i);
          NumberAppend(blk[..i], newBlock);
          ghost var t := blk[..i];
          len := i + 1;
          blk[i] := newBlock;
          assert blk[..len] == t + [newBlock];
        } else {
          NumberUpdate(s, i, newBlock);
          blk[i] := newBlock;
          assert blk[..len] == s[i := newBlock];
        }
      }
    }

    // Makes room for block i and zeroes the blocks up to it.
    method ExtendTo(i: nat)
      requires Rep() && i >= len
      modifies this, blk
      ensures Rep() && len == old(len) && i < cap && (blk == old(blk) || fresh(blk))
      ensures Number(blk[..i]) == old(Value())
    {
      hide Number;
      ghost var s := blk[..len];
      AllocateAndCopy(i + 1);
      for j := len to i
        invariant Rep() && len == |s| && i < blk.Length && (blk == old(blk) || fresh(blk))
        invariant blk[..len] == s && forall k :: len <= k < j ==> blk[k] == 0
      {
        blk[j] := 0;
      }
      NumberPad(blk[..i], len);
      assert blk[..i][..len] == s;
    }

    method BitLength() returns (n: nat)
      requires Valid()
      ensures Value() < Pow(2, n)
      ensures forall m: nat :: Value() < Pow(2, m) ==> n <= m
    {
      if len == 0 {
        NumberEmpty();
        assert Pow(2, 0) == 1;
        return 0;
      }
      var leftmostBlock := GetBlock(len - 1);
      var leftmostBlockLen := BlockLength(leftmostBlock);
      n := leftmostBlockLen + (len - 1) * N;
      TopBits(blk[..len], leftmostBlockLen, n);
    }

    // The loop of bit_length: the number of bits in a nonzero block.
    method BlockLength(block: Block) returns (l: nat)
      requires block != 0
      ensures l > 0 && Pow(2, l - 1) <= block < Pow(2, l)
    {
      hide Pow;
      var leftmostBlock := block;
      l := 0;
      ShiftedOut(block);
      while leftmostBlock != 0
        invariant leftmostBlock == block / Pow(2, l)
        invariant l > 0 ==> Pow(2, l - 1) <= block
        invariant leftmostBlock == 0 ==> l > 0
        decreases leftmostBlock
      {
        HalveShifted(block, l);
        leftmostBlock := leftmostBlock / 2;
        l := l + 1;
      }
      HalveShifted(block, l);
    }

    predicate GetBit(bi: nat)
      requires Rep()
      reads this, blk
    {
      BitAnd(GetBlock(bi / N), Pow(2, bi % N)) != 0
    }

    lemma GetBitMeaning(bi: nat)
      requires Rep()
      ensures GetBit(bi) <==> Bit(Value(), bi)
    {
      BitAndTests(GetBlock(bi / N), bi % N);
      BlockOfNumber(blk[..len], bi / N);
      BitOfBlock(Value(), bi);
    }

    method SetBit(bi: nat, newBit: bool)
      requires Valid()
      modifies this, blk
      ensures Valid() && (blk == old(blk) || fresh(blk))
      ensures forall k: nat :: Bit(Value(), k) == if k == bi then newBit else old(Bit(Value(), k))
      ensures Value() == old(Value()) + (if newBit then Pow(2, bi) else 0)
                         - (if old(Bit(Value(), bi)) then Pow(2, bi) else 0)
    {
      var blockI := bi / N;
      var block, mask := GetBlock(blockI), Pow(2, bi % N);
      ghost var before := Value();
      BlockOfNumber(blk[..len], blockI);
      MaskBits(block, bi % N, newBit);
      block := if newBit then BitOr(block, mask) else BitAnd(block, B - 1 - mask);
      MaskBlock(before, GetBlock(blockI), block, bi, newBit);
      SetBlock(blockI, block);
      FlipBit(before, Value(), bi, newBit);
    }

    method CompareTo(x: BigUnsigned) returns (r: Comparison)
      requires Valid() && x.Valid()
      ensures r == Less <==> Value() < x.Value()
      ensures r == Equal <==> Value() == x.Value()
      ensures r == Greater <==> Value() > x.Value()
    {
      ghost var s, t := blk[..len], x.blk[..x.len];
      if len < x.len {
        ValLonger(B, s, t);
        return Less;
      } else if len > x.len {
        ValLonger(B, t, s);
        return Greater;
      }
      var i := len;
      while i > 0
        invariant 0 <= i <= len == |s| == |t| && s[i..] == t[i..]
      {
        i := i - 1;
        if blk[i] > x.blk[i] {
          ValLess(B, t, s, i);
          return Greater;
        } else if blk[i] != x.blk[i] {
          ValLess(B, s, t, i);
          return Less;
        }
        assert s[i..] == [s[i]] + s[i + 1..] && t[i..] == [t[i]] + t[i + 1..];
      }
      assert s == s[0..] && t == t[0..];
      return Equal;
    }

    // ---- addition and subtraction ----

    method Add(a: BigUnsigned, b: BigUnsigned)
      requires Rep() && a.Valid() && b.Valid() && Apart(a) && Apart(b)
      modifies this, blk
      ensures Valid() && Value() == old(a.Value()) + old(b.Value())
      ensures blk == old(blk) || fresh(blk)
    {
      if this == a || this == b {
        var tmpThis := new BigUnsigned();
        tmpThis.AddApart(a, b);
        Assign(tmpThis);
        return;
      }
      AddApart(a, b);
    }

    // add, for a receiver that is neither operand.
    method AddApart(a: BigUnsigned, b: BigUnsigned)
      requires Rep() && a.Valid() && b.Valid() && a != this && b != this && a.blk != blk && b.blk != blk
      modifies this, blk
      ensures Valid() && Value() == a.Value() + b.Value()
      ensures blk == old(blk) || fresh(blk)
    {
      if a.len == 0 {
        Assign(b);
        return;
      } else if b.len == 0 {
        Assign(a);
        return;
      }
      if a.len >= b.len {
        AddLonger(a, b);
      } else {
        AddLonger(b, a);
      }
    }

    // Addition once a2 is known to be the longer and b2 the shorter input, and neither is this object.
    method AddLonger(a2: BigUnsigned, b2: BigUnsigned)
      requires Rep() && a2.Valid() && b2.Valid() && a2.blk != blk && b2.blk != blk && a2 != this && b2 != this
      requires 0 < b2.len <= a2.len
      modifies this, blk
      ensures Valid() && Value() == a2.Value() + b2.Value()
      ensures blk == old(blk) || fresh(blk)
    {
      hide Number, P, Low, Sum;
      ghost var x, y := a2.blk[..a2.len], b2.blk[..b2.len];
      len := a2.len + 1;
      Allocate(len);
      var carryIn := AddShared(a2, b2);
      var i;
      i, carryIn := AddRipple(a2, y, b2.len, carryIn);
      FinishSum(a2, y, i, carryIn);
    }

    // Copies the blocks left, and makes the carry that is left the top block.
    method FinishSum(a2: BigUnsigned, ghost y: seq<Block>, i: nat, carryIn: bool)
      requires Rep() && a2.Valid() && a2.blk != blk && a2 != this && 0 < a2.len < len == a2.len + 1
      requires |y| <= i <= a2.len && (i < a2.len ==> !carryIn)
      requires Sum(blk[..i], a2.blk[..a2.len], y, carryIn)
      modifies this`len, blk
      ensures Valid() && Value() == a2.Value() + Number(y)
    {
      hide Number, P, Low, Sum;
      ghost var r, x := blk[..i], a2.blk[..a2.len];
      SumDone(r, x, y, carryIn);
      ghost var t := r + x[i..];
      CopyTail(a2, i);
      assert blk[..a2.len] == t;
      if carryIn {
        blk[a2.len] := 1;
        assert blk[..len] == t + [1];
      } else {
        len := len - 1;
      }
    }

    // The loop over the block indices present in both inputs.
    method AddShared(a2: BigUnsigned, b2: BigUnsigned) returns (carryIn: bool)
      requires a2.Rep() && b2.Rep() && a2.blk != blk && b2.blk != blk && b2.len <= a2.len <= blk.Length
      modifies blk
      ensures Sum(blk[..b2.len], a2.blk[..a2.len], b2.blk[..b2.len], carryIn)
    {
      hide Number, P, Low, Sum;
      ghost var x, y := a2.blk[..a2.len], b2.blk[..b2.len];
      SumEmpty(x, y);
      carryIn := false;
      for i := 0 to b2.len
        invariant Sum(blk[..i], x, y, carryIn)
      {
        ghost var r := blk[..i];
        var temp := WrappingAdd(a2.blk[i], b2.blk[i]);
        var carryOut := temp < a2.blk[i];
        if carryIn {
          temp := WrappingAdd(temp, 1);
          carryOut := carryOut || temp == 0;
        }
        SumStep(r, temp, x, y, carryIn, carryOut);
        blk[i] := temp;
        assert blk[..i + 1] == r + [temp];
        carryIn := carryOut;
      }
    }

    // The loop that carries into the remaining blocks of the longer input.
    method AddRipple(a2: BigUnsigned, ghost y: seq<Block>, from: nat, carry: bool) returns (i: nat, carryIn: bool)
      requires a2.Rep() && a2.blk != blk && |y| == from <= a2.len <= blk.Length
      requires Sum(blk[..from], a2.blk[..a2.len], y, carry)
      modifies blk
      ensures from <= i <= a2.len && Sum(blk[..i], a2.blk[..a2.len], y, carryIn) && (i < a2.len ==> !carryIn)
    {
      hide Number, P, Low, Sum;
      ghost var x := a2.blk[..a2.len];
      i, carryIn := from, carry;
      while i < a2.len && carryIn
        invariant from <= i <= |x| && Sum(blk[..i], x, y, carryIn)
      {
        ghost var r := blk[..i];
        var temp := WrappingAdd(a2.blk[i], 1);
        carryIn := temp == 0;
        SumStep(r, temp, x, y, true, carryIn);
        blk[i] := temp;
        assert blk[..i + 1] == r + [temp];
        i := i + 1;
      }
    }

    // The loop that copies the blocks of a from index i on.
    method CopyTail(a: BigUnsigned, from: nat)
      requires a.Rep() && a.blk != blk && from <= a.len <= blk.Length
      modifies blk
      ensures blk[..a.len] == old(blk[..from]) + a.blk[from..a.len]
    {
      for i := from to a.len
        invariant blk[..i] == old(blk[..from]) + a.blk[from..i]
      {
        blk[i] := a.blk[i];
      }
    }

    // The object holds exactly the blocks it held before.
    twostate predicate SameBlocks()
      reads this, blk
    {
      Rep() && old(Rep()) && len == old(len) && blk[..len] == old(blk[..len])
    }

    // Throws exactly when the difference is negative; then the object is left alone if an
    // operand is aliased to it or b is longer than a, and zeroed otherwise.
    method Subtract(a: BigUnsigned, b: BigUnsigned) returns (thrown: bool)
      requires Rep() && a.Valid() && b.Valid() && Apart(a) && Apart(b)
      modifies this, blk
      ensures Rep() && (blk == old(blk) || fresh(blk))
      ensures thrown <==> old(a.Value()) < old(b.Value())
      ensures !thrown ==> Valid() && Value() == old(a.Value()) - old(b.Value())
      ensures thrown ==> if this == a || this == b || old(a.len) < old(b.len) then SameBlocks() else len == 0
    {
      if this == a || this == b {
        var tmpThis := new BigUnsigned();
        thrown := tmpThis.SubtractApart(a, b);
        if !thrown { Assign(tmpThis); }
        return;
      }
      thrown := SubtractApart(a, b);
    }

    // subtract, for a receiver that is neither operand.
    method SubtractApart(a: BigUnsigned, b: BigUnsigned) returns (thrown: bool)
      requires Rep() && a.Valid() && b.Valid() && a != this && b != this && a.blk != blk && b.blk != blk
      modifies this, blk
      ensures Rep() && (blk == old(blk) || fresh(blk))
      ensures thrown <==> a.Value() < b.Value()
      ensures !thrown ==> Valid() && Value() == a.Value() - b.Value()
      ensures thrown ==> if a.len < b.len then SameBlocks() else len == 0
    {
      hide P, Low, Difference, Val;
      if b.len == 0 {
        NumberEmpty();
        Assign(a);
        return false;
      }
      if a.len < b.len {
        ValLonger(B, a.blk[..a.len], b.blk[..b.len]);
        return true;
      }
      thrown := SubtractShorter(a, b);
    }

    // Subtraction of a number with at most as many blocks.
    method SubtractShorter(a: BigUnsigned, b: BigUnsigned) returns (thrown: bool)
      requires Rep() && a.Valid() && b.Valid() && a != this && b != this && a.blk != blk && b.blk != blk
      requires b.len <= a.len
      modifies this, blk
      ensures Rep() && (blk == old(blk) || fresh(blk))
      ensures thrown <==> a.Value() < b.Value()
      ensures if thrown then len == 0 else Valid() && Value() == a.Value() - b.Value()
    {
      hide P, Low, Difference, Number, Canonical;
      ghost var x, y := a.blk[..a.len], b.blk[..b.len];
      len := a.len;
      Allocate(len);
      var borrowIn := SubtractShared(a, b);
      var i;
      i, borrowIn := SubtractRipple(a, y, b.len, borrowIn);
      ghost var r := blk[..i];
      DifferenceDone(r, x, y, borrowIn);
      if borrowIn {
        len := 0;
        return true;
      }
      CopyTail(a, i);
      assert blk[..len] == r + x[i..];
      ZapLeadingZeros();
      return false;
    }

    method SubtractShared(a: BigUnsigned, b: BigUnsigned) returns (borrowIn: bool)
      requires a.Rep() && b.Rep() && a.blk != blk && b.blk != blk && b.len <= a.len <= blk.Length
      modifies blk
      ensures Difference(blk[..b.len], a.blk[..a.len], b.blk[..b.len], borrowIn)
    {
      hide Number, P, Low, Difference;
      ghost var x, y := a.blk[..a.len], b.blk[..b.len];
      SumEmpty(x, y);
      borrowIn := false;
      for i := 0 to b.len
        invariant Difference(blk[..i], x, y, borrowIn)
      {
        ghost var r := blk[..i];
        var temp := WrappingSub(a.blk[i], b.blk[i]);
        var borrowOut := temp > a.blk[i];
        if borrowIn {
          borrowOut := borrowOut || temp == 0;
          temp := WrappingSub(temp, 1);
        }
        DifferenceStep(r, temp, x, y, borrowIn, borrowOut);
        blk[i] := temp;
        assert blk[..i + 1] == r + [temp];
        borrowIn := borrowOut;
      }
    }

    method SubtractRipple(a: BigUnsigned, ghost y: seq<Block>, from: nat, borrow: bool) returns (i: nat, borrowIn: bool)
      requires a.Rep() && a.blk != blk && |y| == from <= a.len <= blk.Length
      requires Difference(blk[..from], a.blk[..a.len], y, borrow)
      modifies blk
      ensures from <= i <= a.len && Difference(blk[..i], a.blk[..a.len], y, borrowIn) && (i < a.len ==> !borrowIn)
    {
      hide Number, P, Low, Difference;
      ghost var x := a.blk[..a.len];
      i, borrowIn := from, borrow;
      while i < a.len && borrowIn
        invariant from <= i <= |x| && Difference(blk[..i], x, y, borrowIn)
      {
        ghost var r := blk[..i];
        var temp := WrappingSub(a.blk[i], 1);
        borrowIn := a.blk[i] == 0;
        DifferenceStep(r, temp, x, y, true, borrowIn);
        blk[i] := temp;
        assert blk[..i + 1] == r + [temp];
        i := i + 1;
      }
    }

    // ---- multiplication ----

    // Block x of this number shifted left by y bits.
    function GetShiftedBlock(x: nat, y: nat): Block
      requires Rep() && x <= len && y < N
      reads this, blk
    {
      ShiftedBlock(blk[..len], x, y)
    }

    method Multiply(a: BigUnsigned, b: BigUnsigned)
      requires Rep() && a.Valid() && b.Valid() && Apart(a) && Apart(b)
      modifies this, blk
      ensures Valid() && Value() == old(a.Value()) * old(b.Value())
      ensures blk == old(blk) || fresh(blk)
    {
      if this == a || this == b {
        var tmpThis := new BigUnsigned();
        tmpThis.MultiplyApart(a, b);
        Assign(tmpThis);
        return;
      }
      MultiplyApart(a, b);
    }

    // multiply, for a receiver that is neither operand.
    method MultiplyApart(a: BigUnsigned, b: BigUnsigned)
      requires Rep() && a.Valid() && b.Valid() && a != this && b != this && a.blk != blk && b.blk != blk
      modifies this, blk
      ensures Valid() && Value() == a.Value() * b.Value()
      ensures blk == old(blk) || fresh(blk)
    {
      if a.len == 0 || b.len == 0 {
        len := 0;
        return;
      }
      MultiplyNonzero(a, b);
    }

    method MultiplyNonzero(a: BigUnsigned, b: BigUnsigned)
      requires Rep() && a.Valid() && b.Valid() && a.blk != blk && b.blk != blk && a != this && b != this
      requires a.len > 0 && b.len > 0
      modifies this, blk
      ensures Valid() && Value() == a.Value() * b.Value()
      ensures blk == old(blk) || fresh(blk)
    {
      ghost var x, y := a.blk[..a.len], b.blk[..b.len];
      ProductBounds(x, y);
      SetZeros(a.len + b.len);
      for i := 0 to a.len
        invariant Rep() && len == |x| + |y| && (blk == old(blk) || fresh(blk))
        invariant Value() == Low(x, i) * Number(y)
      {
        MultiplyBlock(a, b, i);
      }
      LowAll(x, |x|);
      ZapOneLeadingZero();
    }

    // Zeroes the n low blocks.
    method Zero(n: nat)
      requires n <= blk.Length
      modifies blk
      ensures forall k :: 0 <= k < n ==> blk[k] == 0
      ensures Number(blk[..n]) == 0
    {
      for i := 0 to n
        invariant forall k :: 0 <= k < i ==> blk[k] == 0
      {
        blk[i] := 0;
      }
      ValZeros(B, blk[..n]);
    }

    // All bits of one block of a.
    method MultiplyBlock(a: BigUnsigned, b: BigUnsigned, i: nat)
      requires Rep() && a.Rep() && b.Rep() && a.blk != blk && b.blk != blk && b != this
      requires i < a.len && len == a.len + b.len
      requires Value() == Low(a.blk[..a.len], i) * b.Value()
      modifies blk
      ensures Value() == Low(a.blk[..a.len], i + 1) * b.Value()
    {
      ghost var x, y := a.blk[..a.len], b.blk[..b.len];
      PartialEnds(x, i);
      for i2 := 0 to N
        invariant Value() == Partial(x, i, i2) * Number(y)
      {
        PartialStep(x, i, i2);
        BitAndTests(x[i], i2);
        if BitAnd(a.blk[i], Pow(2, i2)) != 0 {
          MultiplyFits(x, y, i, i2);
          AddShifted(b, i, i2);
        }
      }
    }

    // Adds b, shifted left by i blocks and i2 bits, where the sum is known to fit.
    method AddShifted(b: BigUnsigned, i: nat, i2: nat)
      requires Rep() && b.Rep() && b.blk != blk && b != this && i2 < N && i + b.len < len
      requires Value() + b.Value() * (Pow(2, i2) * P(i)) < P(len)
      modifies blk
      ensures Value() == old(Value()) + b.Value() * (Pow(2, i2) * P(i))
    {
      ghost var s, w := blk[..len], ShiftedAt(b.blk[..b.len], i, i2);
      ShiftedAtNumber(b.blk[..b.len], i, i2);
      var k, carryIn := AddShiftedShared(b, i, i2);
      k := AddShiftedRipple(s, w, k, carryIn);
      SumTotal(blk[..k], s, w);
      assert blk[..len] == blk[..k] + s[k..];
    }

    // The loop that rolls a carry over, within the array because the sum fits.
    method AddShiftedRipple(ghost s: seq<Block>, ghost w: seq<Block>, from: nat, carry: bool) returns (k: nat)
      requires Rep() && |s| == len && |w| <= from <= len && Number(s) + Number(w) < P(len)
      requires Sum(blk[..from], s, w, carry) && blk[from..len] == s[from..]
      modifies blk
      ensures from <= k <= len && Sum(blk[..k], s, w, false) && blk[k..len] == s[k..]
    {
      k := from;
      var carryIn := carry;
      if k == len && carryIn { SumOverflow(blk[..k], s, w); }
      while carryIn
        invariant |w| <= k <= len && (carryIn ==> k < len)
        invariant Sum(blk[..k], s, w, carryIn)
        invariant blk[k..len] == s[k..]
        decreases len - k
      {
        ghost var r := blk[..k];
        var temp := WrappingAdd(blk[k], 1);
        carryIn := temp == 0;
        SumStep(r, temp, s, w, true, carryIn);
        blk[k] := temp;
        k := k + 1;
        assert blk[..k] == r + [temp] && blk[k..len] == s[k..];
        if k == len && carryIn { SumOverflow(blk[..k], s, w); }
      }
    }

    // The loop over the blocks of the shifted b.
    method AddShiftedShared(b: BigUnsigned, i: nat, i2: nat) returns (k: nat, carryIn: bool)
      requires Rep() && b.Rep() && b.blk != blk && b != this && i2 < N && i + b.len < len
      modifies blk
      ensures k == i + b.len + 1
      ensures Sum(blk[..k], old(blk[..len]), ShiftedAt(b.blk[..b.len], i, i2), carryIn)
      ensures blk[k..len] == old(blk[k..len])
    {
      hide Number, P, Low, Sum, ShiftedAt, ShiftedBlock;
      ghost var s, t := blk[..len], b.blk[..b.len];
      ghost var w := ShiftedAt(t, i, i2);
      ShiftedAtNumber(t, i, i2);
      SumStart(s, w, i);
      assert blk[..i] == s[..i];
      k, carryIn := i, false;
      for j := 0 to b.len + 1
        invariant k == i + j && b.blk[..b.len] == t && Sum(blk[..k], s, w, carryIn)
        invariant blk[k..len] == s[k..]
      {
        ShiftedAtBlock(t, i, i2, j);
        assert blk[k] == blk[k..len][0] == s[k];
        ghost var r := blk[..k];
        var temp := WrappingAdd(blk[k], b.GetShiftedBlock(j, i2));
        var carryOut := temp < blk[k];
        if carryIn {
          temp := WrappingAdd(temp, 1);
          carryOut := carryOut || temp == 0;
        }
        SumStep(r, temp, s, w, carryIn, carryOut);
        blk[k] := temp;
        assert blk[..k + 1] == r + [temp];
        carryIn := carryOut;
        k := k + 1;
        assert blk[k..len] == s[k..];
      }
    }

    // ---- division ----

    // Divides by b, leaving the remainder here and the quotient in q.  Throws only when the
    // quotient is asked for in this object.
    method DivideWithRemainder(b: BigUnsigned, q: BigUnsigned) returns (thrown: bool)
      requires Valid() && b.Valid() && q.Rep() && Apart(b) && Apart(q) && q.Apart(b)
      modifies this, blk, q, q.blk
      ensures Valid() && q.Valid() && Apart(q)
      ensures blk == old(blk) || fresh(blk)
      ensures q.blk == old(q.blk) || fresh(q.blk)
      ensures thrown <==> this == q
      ensures thrown ==> SameBlocks()
      ensures !thrown && old(b.Value()) == 0 ==> q.Value() == 0 && Value() == old(Value())
      ensures !thrown && old(b.Value()) != 0 ==>
                && old(Value()) == q.Value() * old(b.Value()) + Value()
                && Value() < old(b.Value())
    {
      if this == q {
        return true;
      }
      if this == b || q == b {
        var tmpB := new BigUnsigned.Copy(b);
        DivideApart(tmpB, q);
        return false;
      }
      DivideApart(b, q);
      return false;
    }

    // Division once all three objects are known to differ.
    method DivideApart(b: BigUnsigned, q: BigUnsigned)
      requires Valid() && b.Valid() && q.Rep() && this != b && q != b && this != q
      requires blk != b.blk && q.blk != b.blk && blk != q.blk
      modifies this, blk, q, q.blk
      ensures Valid() && q.Valid() && blk != q.blk
      ensures blk == old(blk) || fresh(blk)
      ensures q.blk == old(q.blk) || fresh(q.blk)
      ensures b.Value() == 0 ==> q.Value() == 0 && Value() == old(Value())
      ensures b.Value() != 0 ==> old(Value()) == q.Value() * b.Value() + Value() && Value() < b.Value()
    {
      if b.len == 0 {
        q.len := 0;
        return;
      }
      TopBlock(b.blk[..b.len]);
      if len < b.len {
        ValLonger(B, blk[..len], b.blk[..b.len]);
        q.len := 0;
        return;
      }
      DivideLonger(b, q);
    }

    // Division by a number with at most as many blocks.
    method DivideLonger(b: BigUnsigned, q: BigUnsigned)
      requires Valid() && b.Valid() && q.Rep() && this != b && q != b && this != q
      requires blk != b.blk && q.blk != b.blk && blk != q.blk && 0 < b.len <= len
      modifies this, blk, q, q.blk
      ensures Valid() && q.Valid() && blk != q.blk
      ensures blk == old(blk) || fresh(blk)
      ensures q.blk == old(q.blk) || fresh(q.blk)
      ensures old(Value()) == q.Value() * b.Value() + Value() && Value() < b.Value()
    {
      hide Number, P, Below;
      ghost var s, t := blk[..len], b.blk[..b.len];
      ExtendByZero();
      var subtractBuf := new Block[len];
      q.SetZeros(len - b.len);
      BelowStart(s, t);
      DivideLoop(b, q, subtractBuf);
      if q.len > 1 { QuotientTop(s, t, q.Value(), Value()); }
      q.ZapOneLeadingZero();
      ZapLeadingZeros();
    }

    // Sets the length to n, all zero blocks.
    method SetZeros(n: nat)
      requires Rep()
      modifies this, blk
      ensures Rep() && len == n && (blk == old(blk) || fresh(blk))
      ensures Value() == 0 && forall k :: 0 <= k < n ==> blk[k] == 0
    {
      len := n;
      Allocate(len);
      Zero(len);
    }

    // Puts a zero block on top, which the shifted divisor may reach into.
    method ExtendByZero()
      requires Rep()
      modifies this, blk
      ensures Rep() && len == old(len) + 1 && Value() == old(Value())
      ensures blk == old(blk) || fresh(blk)
    {
      ghost var s := blk[..len];
      AllocateAndCopy(len + 1);
      len := len + 1;
      blk[len - 1] := 0;
      ValPad(B, blk[..len], len - 1);
      assert blk[..len][..len - 1] == s;
    }

    // All quotient blocks, from the top.
    method DivideLoop(b: BigUnsigned, q: BigUnsigned, subtractBuf: array<Block>)
      requires Rep() && b.Rep() && q.Rep() && this != q && q != b && this != b
      requires blk != b.blk && q.blk != b.blk && blk != q.blk
      requires subtractBuf != blk && subtractBuf != q.blk && subtractBuf != b.blk && subtractBuf.Length == len
      requires q.len + b.len == len && Below(Value(), b.Value(), q.len, 0)
      requires q.Value() == 0 && forall k :: 0 <= k < q.len ==> q.blk[k] == 0
      modifies blk, q.blk, subtractBuf
      ensures old(Value()) == q.Value() * b.Value() + Value() && Value() < b.Value()
    {
      ghost var a, d := Value(), b.Value();
      var i := q.len;
      while i > 0
        invariant 0 <= i <= q.len && b.Value() == d
        invariant q.Value() * d + Value() == a && Below(Value(), d, i, 0)
        invariant forall k :: 0 <= k < i ==> q.blk[k] == 0
      {
        i := i - 1;
        DivideBlock(b, q, subtractBuf, i);
      }
      BelowEnds(Value(), d, 0);
    }

    // All bits of one quotient block.
    method DivideBlock(b: BigUnsigned, q: BigUnsigned, subtractBuf: array<Block>, i: nat)
      requires Rep() && b.Rep() && q.Rep() && this != q && q != b && this != b
      requires blk != b.blk && q.blk != b.blk && blk != q.blk
      requires subtractBuf != blk && subtractBuf != q.blk && subtractBuf != b.blk && subtractBuf.Length == len
      requires i < q.len && q.len + b.len == len && q.blk[i] == 0 && Below(Value(), b.Value(), i + 1, 0)
      modifies blk, q.blk, subtractBuf
      ensures q.Value() * b.Value() + Value() == old(q.Value() * b.Value() + Value())
      ensures Below(Value(), b.Value(), i, 0)
      ensures forall k :: 0 <= k < q.len && k != i ==> q.blk[k] == old(q.blk[k])
    {
      ghost var d, a := b.Value(), q.Value() * b.Value() + Value();
      BelowEnds(Value(), d, i);
      q.blk[i] := 0;
      assert q.blk[..q.len] == old(q.blk[..q.len]);
      DivModOf(0, B, 0, 0);
      var i2: nat := N;
      while i2 > 0
        invariant i2 <= N && b.Value() == d && q.Value() * d + Value() == a
        invariant Below(Value(), d, i, i2) && q.blk[i] % Pow(2, i2) == 0
        invariant forall k :: 0 <= k < q.len && k != i ==> q.blk[k] == old(q.blk[k])
      {
        i2 := i2 - 1;
        DivideBit(b, q, subtractBuf, i, i2);
      }
    }

    // One quotient bit, given that the bits up to it are still clear.
    method DivideBit(b: BigUnsigned, q: BigUnsigned, subtractBuf: array<Block>, i: nat, i2: nat)
      requires Rep() && b.Rep() && q.Rep() && this != q && q != b && this != b
      requires blk != b.blk && q.blk != b.blk && blk != q.blk
      requires subtractBuf != blk && subtractBuf != q.blk && subtractBuf != b.blk && subtractBuf.Length == len
      requires i < q.len && q.len + b.len == len && i2 < N
      requires Below(Value(), b.Value(), i, i2 + 1) && q.blk[i] % Pow(2, i2 + 1) == 0
      modifies blk, q.blk, subtractBuf
      ensures q.Value() * b.Value() + Value() == old(q.Value() * b.Value() + Value())
      ensures Below(Value(), b.Value(), i, i2) && q.blk[i] % Pow(2, i2) == 0
      ensures forall k :: 0 <= k < q.len && k != i ==> q.blk[k] == old(q.blk[k])
    {
      hide Number, P, Pow, Below, BitOr;
      ghost var w, qs := Pow(2, i2) * P(i), q.blk[..q.len];
      BelowStep(Value(), b.Value(), i, i2);
      QuotientBit(q.blk[i], i2);
      var borrowIn := TrySubtract(b, subtractBuf, i, i2);
      if !borrowIn {
        q.blk[i] := BitOr(q.blk[i], Pow(2, i2));
        assert q.blk[..q.len] == qs[i := qs[i] + Pow(2, i2)];
        NumberUpdate(qs, i, qs[i] + Pow(2, i2));
        MulDist(Number(qs), w, b.Value());
      }
    }

    // Subtracts b, shifted likewise, if that leaves nothing negative.
    method TrySubtract(b: BigUnsigned, subtractBuf: array<Block>, i: nat, i2: nat) returns (borrowIn: bool)
      requires Rep() && b.Rep() && this != b && blk != b.blk
      requires subtractBuf != blk && subtractBuf != b.blk && subtractBuf.Length == len
      requires i2 < N && i + b.len < len && Below(Value(), b.Value(), i, i2 + 1)
      modifies blk, subtractBuf
      ensures var w := b.Value() * (Pow(2, i2) * P(i));
              && (borrowIn <==> old(Value()) < w)
              && Value() == old(Value()) - if borrowIn then 0 else w
    {
      hide Number, P, Pow, Low, Below, Difference, ShiftedAt;
      ghost var s, y := blk[..len], b.blk[..b.len];
      ghost var w := ShiftedAt(y, i, i2);
      ShiftedAtNumber(y, i, i2);
      var k;
      ghost var r;
      k, borrowIn, r := SubtractShifted(b, subtractBuf, s, w, i, i2);
      k, borrowIn, r := SubtractShiftedRipple(subtractBuf, s, w, i, k, borrowIn, r);
      if !borrowIn {
        DifferenceDone(r, s, w, false);
        CopyBack(subtractBuf, i, k);
        assert forall x :: 0 <= x < |r| ==> blk[x] == r[x];
        assert blk[..len] == r + s[k..];
      } else {
        if i + b.len + 1 < len { BelowTop(s, y, i, i2); }
        DifferenceFails(r, s, w);
      }
    }

    // r is the difference so far; its blocks from i on are in subtractBuf.
    ghost predicate Buffered(subtractBuf: array<Block>, s: seq<Block>, w: seq<Block>, i: nat, borrowIn: bool, r: seq<Block>)
      reads subtractBuf
    {
      && i <= |r| <= |s| == subtractBuf.Length
      && Difference(r, s, w, borrowIn)
      && (forall x :: 0 <= x < i ==> r[x] == s[x])
      && (forall x :: i <= x < |r| ==> r[x] == subtractBuf[x])
    }

    // The loop over the blocks of the shifted b; results go to subtractBuf.
    method SubtractShifted(b: BigUnsigned, subtractBuf: array<Block>, ghost s: seq<Block>, ghost w: seq<Block>, i: nat, i2: nat)
      returns (k: nat, borrowIn: bool, ghost r: seq<Block>)
      requires Rep() && b.Rep() && this != b && blk != b.blk
      requires subtractBuf != blk && subtractBuf != b.blk && subtractBuf.Length == len
      requires i2 < N && i + b.len < len && s == blk[..len] && w == ShiftedAt(b.blk[..b.len], i, i2)
      modifies subtractBuf
      ensures k == |r| == i + b.len + 1 && Buffered(subtractBuf, s, w, i, borrowIn, r)
    {
      hide Number, P, Low, Difference, ShiftedAt, ShiftedBlock;
      ghost var t := b.blk[..b.len];
      ShiftedAtNumber(t, i, i2);
      SumStart(s, w, i);
      k, borrowIn, r := i, false, s[..i];
      for j := 0 to b.len + 1
        invariant k == |r| == i + j && Buffered(subtractBuf, s, w, i, borrowIn, r)
      {
        ShiftedAtBlock(t, i, i2, j);
        var temp := WrappingSub(blk[k], b.GetShiftedBlock(j, i2));
        var borrowOut := temp > blk[k];
        if borrowIn {
          borrowOut := borrowOut || temp == 0;
          temp := WrappingSub(temp, 1);
        }
        DifferenceStep(r, temp, s, w, borrowIn, borrowOut);
        subtractBuf[k] := temp;
        r := r + [temp];
        borrowIn := borrowOut;
        k := k + 1;
      }
    }

    // The loop that rolls a borrow over; it stops short of the extra zero block.
    method SubtractShiftedRipple(subtractBuf: array<Block>, ghost s: seq<Block>, ghost w: seq<Block>, i: nat,
                                 from: nat, borrow: bool, ghost before: seq<Block>)
      returns (k: nat, borrowIn: bool, ghost r: seq<Block>)
      requires Rep() && subtractBuf != blk && s == blk[..len] && |w| <= from == |before|
      requires Buffered(subtractBuf, s, w, i, borrow, before)
      modifies subtractBuf
      ensures from <= k == |r| && Buffered(subtractBuf, s, w, i, borrowIn, r)
      ensures borrowIn ==> k >= len - 1
    {
      k, borrowIn, r := from, borrow, before;
      while k < len - 1 && borrowIn
        invariant from <= k == |r| && Buffered(subtractBuf, s, w, i, borrowIn, r)
      {
        var temp := WrappingSub(blk[k], 1);
        borrowIn := blk[k] == 0;
        DifferenceStep(r, temp, s, w, true, borrowIn);
        subtractBuf[k] := temp;
        r := r + [temp];
        k := k + 1;
      }
    }

    // Copies the part of subtractBuf that the subtraction filled.
    method CopyBack(subtractBuf: array<Block>, i: nat, end: nat)
      requires subtractBuf != blk && i <= end <= subtractBuf.Length <= blk.Length
      modifies blk
      ensures forall x :: i <= x < end ==> blk[x] == subtractBuf[x]
      ensures forall x :: 0 <= x < blk.Length && !(i <= x < end) ==> blk[x] == old(blk[x])
    {
      var k := end;
      while k > i
        invariant i <= k <= end
        invariant forall x :: k <= x < end ==> blk[x] == subtractBuf[x]
        invariant forall x :: 0 <= x < blk.Length && !(k <= x < end) ==> blk[x] == old(blk[x])
      {
        k := k - 1;
        blk[k] := subtractBuf[k];
      }
    }

    // ---- shifts ----

    // Shifting zero left by a block or more is the one case that leaves leading zero blocks.
    method BitShiftLeft(a: BigUnsigned, b: int) returns (thrown: bool)
      requires Rep() && a.Valid() && Apart(a) && INT_MIN <= b <= INT_MAX
      modifies this, blk
      ensures Rep() && (blk == old(blk) || fresh(blk))
      ensures thrown <==> b == INT_MIN
      ensures thrown ==> SameBlocks()
      ensures !thrown && b >= 0 ==> Value() == old(a.Value()) * Pow(2, b)
      ensures !thrown && b < 0 ==> Value() == old(a.Value()) / Pow(2, -b)
      ensures !thrown ==> (Valid() <==> !(old(a.Value()) == 0 && b >= N))
      decreases b < 0, this == a
    {
      if this == a {
        var tmpThis := new BigUnsigned();
        thrown := tmpThis.BitShiftLeft(a, b);
        if !thrown { Assign(tmpThis); }
        return;
      }
      if b < 0 {
        if 2 * b % 0x1_0000_0000 == 0 {
          return true;
        }
        thrown := BitShiftRight(a, -b);
        return;
      }
      ShiftLeftBy(a, b);
      return false;
    }

    // The shift proper, by a nonnegative amount.
    method ShiftLeftBy(a: BigUnsigned, b: int)
      requires Rep() && a.Valid() && a != this && a.blk != blk && 0 <= b
      modifies this, blk
      ensures Rep() && (blk == old(blk) || fresh(blk))
      ensures Value() == a.Value() * Pow(2, b)
      ensures Valid() <==> !(a.Value() == 0 && b >= N)
    {
      hide Number, P, Pow, ShiftedBlock;
      a.ZeroIffEmpty();
      ghost var x := a.blk[..a.len];
      var shiftBlocks, shiftBits := b / N, b % N;
      ShiftLeftNumber(x, b);
      len := a.len + shiftBlocks + 1;
      Allocate(len);
      Zero(shiftBlocks);
      FillShifted(a, 0, shiftBits, shiftBlocks);
      assert blk[..len] == ShiftedAt(x, shiftBlocks, shiftBits);
      if a.len > 0 {
        ZapOneLeadingZero();
      } else {
        ZapShiftedZero(shiftBlocks, shiftBits);
        ShiftZero(Pow(2, b));
        BlockShift(b);
      }
    }

    // Zero has only zero blocks, of which one is trimmed.
    method ZapShiftedZero(ghost shiftBlocks: nat, ghost shiftBits: nat)
      requires Rep() && shiftBits < N && len == shiftBlocks + 1
      requires blk[..len] == ShiftedAt([], shiftBlocks, shiftBits)
      modifies this`len
      ensures Rep() && Value() == 0 && len == shiftBlocks && (Valid() <==> shiftBlocks == 0)
    {
      hide P, Pow, ShiftedBlock;
      ShiftedZero(shiftBlocks, shiftBits);
      ghost var w := ShiftedAt([], shiftBlocks, shiftBits);
      assert blk[len - 1] == w[len - 1] == 0;
      assert blk[..len - 1] == w[..len - 1];
      if blk[len - 1] == 0 { len := len - 1; }
    }

    method BitShiftRight(a: BigUnsigned, b: int) returns (thrown: bool)
      requires Rep() && a.Valid() && Apart(a) && INT_MIN <= b <= INT_MAX
      modifies this, blk
      ensures Rep() && (blk == old(blk) || fresh(blk))
      ensures thrown <==> b == INT_MIN
      ensures thrown ==> SameBlocks()
      ensures !thrown && b >= 0 ==> Value() == old(a.Value()) / Pow(2, b)
      ensures !thrown && b < 0 ==> Value() == old(a.Value()) * Pow(2, -b)
      ensures !thrown ==> (Valid() <==> !(old(a.Value()) == 0 && -b >= N))
      decreases b < 0, this == a
    {
      if this == a {
        var tmpThis := new BigUnsigned();
        thrown := tmpThis.BitShiftRight(a, b);
        if !thrown { Assign(tmpThis); }
        return;
      }
      if b < 0 {
        if 2 * b % 0x1_0000_0000 == 0 {
          return true;
        }
        thrown := BitShiftLeft(a, -b);
        return;
      }
      ShiftRightBy(a, b);
      return false;
    }

    method ShiftRightBy(a: BigUnsigned, b: int)
      requires Rep() && a.Valid() && a != this && a.blk != blk && 0 <= b
      modifies this, blk
      ensures Valid() && (blk == old(blk) || fresh(blk))
      ensures Value() == a.Value() / Pow(2, b)
    {
      ghost var x := a.blk[..a.len];
      var rightShiftBlocks := (b + N - 1) / N;
      var leftShiftBits := N * rightShiftBlocks - b;
      RoundUpShift(b);
      if rightShiftBlocks >= a.len + 1 {
        ShiftedOff(x, b, rightShiftBlocks, leftShiftBits);
        len := 0;
        return;
      }
      ShiftRightNumber(x, b, rightShiftBlocks, leftShiftBits);
      len := a.len + 1 - rightShiftBlocks;
      Allocate(len);
      FillShifted(a, rightShiftBlocks, leftShiftBits, 0);
      assert blk[..len] == Shifted(x, leftShiftBits)[rightShiftBlocks..];
      ZapOneLeadingZero();
    }

    lemma ZeroIffEmpty()
      requires Valid()
      ensures Value() == 0 <==> len == 0
    {
      if len > 0 { TopBlock(blk[..len]); }
    }

    // The loop of both shifts: blocks of a << y from index j on, stored from index i on.
    method FillShifted(a: BigUnsigned, from: nat, y: nat, at: nat)
      requires a.Rep() && a.blk != blk && y < N && from <= a.len && at + a.len + 1 - from <= blk.Length
      modifies blk
      ensures blk[at..at + a.len + 1 - from] == Shifted(a.blk[..a.len], y)[from..]
      ensures forall k :: 0 <= k < at ==> blk[k] == old(blk[k])
    {
      hide ShiftedBlock;
      var i := at;
      for j := from to a.len + 1
        invariant i == at + j - from
        invariant forall k :: from <= k < j ==> blk[at + k - from] == ShiftedBlock(a.blk[..a.len], k, y)
        invariant forall k :: 0 <= k < at ==> blk[k] == old(blk[k])
      {
        blk[i] := a.GetShiftedBlock(j, y);
        i := i + 1;
      }
    }

    // ---- increment and decrement ----

    method Increment()
      requires Valid()
      modifies this, blk
      ensures Valid() && Value() == old(Value()) + 1
      ensures len == old(len) + if old(Value()) + 1 == P(old(len)) then 1 else 0
      ensures blk == old(blk) || fresh(blk)
    {
      hide Number, P;
      ghost var s := blk[..len];
      var i, carry := CarryOne();
      ghost var r := blk[..i];
      SuccessorDone(r, s, carry);
      if carry {
        AllocateAndCopy(len + 1);
        len := len + 1;
        blk[i] := 1;
        assert blk[..len] == r + [1];
      } else {
        assert blk[..len] == r + s[i..];
      }
    }

    method CarryOne() returns (i: nat, carry: bool)
      requires Rep()
      modifies blk
      ensures i <= len && Successor(blk[..i], old(blk[..len]), carry) && (i < len ==> !carry)
      ensures blk[i..len] == old(blk[i..len])
    {
      hide Number, P, Low, Successor;
      ghost var s := blk[..len];
      SuccessorStart(s);
      i, carry := 0, true;
      while i < len && carry
        invariant i <= len && Successor(blk[..i], s, carry) && blk[i..len] == s[i..]
      {
        ghost var r := blk[..i];
        assert blk[i] == blk[i..len][0] == s[i];
        var temp := WrappingAdd(blk[i], 1);
        blk[i] := temp;
        carry := temp == 0;
        SuccessorStep(r, temp, s, carry);
        i := i + 1;
        assert blk[..i] == r + [temp];
        assert blk[i..len] == s[i..];
      }
    }

    // Throws exactly on zero.
    method Decrement() returns (thrown: bool)
      requires Valid()
      modifies this`len, blk
      ensures Valid() && (thrown <==> old(Value()) == 0)
      ensures Value() == if thrown then 0 else old(Value()) - 1
    {
      hide Number, P, Low, Predecessor;
      ZeroIffEmpty();
      if len == 0 {
        return true;
      }
      ghost var s := blk[..len];
      var i, borrow := 0, true;
      SuccessorStart(s);
      while borrow
        invariant 0 <= i <= len == |s| && Rep() && Predecessor(blk[..i], s, borrow) && blk[i..len] == s[i..]
        invariant borrow ==> i < len
        decreases len - i
      {
        ghost var r := blk[..i];
        assert blk[i] == blk[i..len][0] == s[i];
        var temp := WrappingSub(blk[i], 1);
        borrow := blk[i] == 0;
        blk[i] := temp;
        PredecessorStep(r, temp, s, borrow);
        i := i + 1;
        assert blk[..i] == r + [temp];
        assert blk[i..len] == s[i..];
        if i == len { PredecessorEnds(blk[..i], s, borrow); }
      }
      ghost var r := blk[..i];
      PredecessorDone(r, s);
      assert blk[..len] == r + s[i..];
      ZapOneLeadingZero();
      return false;
    }

    // ---- the assignment operators for remainders ----

    // Throws exactly when the divisor is zero.
    method ModAssign(x: BigUnsigned) returns (thrown: bool)
      requires Valid() && x.Valid() && Apart(x)
      modifies this, blk
      ensures Valid() && (blk == old(blk) || fresh(blk))
      ensures thrown <==> old(x.Value()) == 0
      ensures Value() == if thrown then old(Value()) else old(Value()) % old(x.Value())
    {
      x.ZeroIffEmpty();
      if x.len == 0 { return true; }
      ghost var v, d := Value(), x.Value();
      var q := new BigUnsigned();
      thrown := DivideWithRemainder(x, q);
      DivModUnique(v, d, q.Value(), Value());
    }

    // ---- conversion to unsigned short ----

    // Throws exactly when the number does not fit in 16 bits.
    method ToUnsignedShort() returns (thrown: bool, v: nat)
      requires Valid()
      ensures thrown <==> Value() >= 65536
      ensures !thrown ==> v == Value()
    {
      BaseIsLarge();
      if len == 0 {
        NumberEmpty();
        return false, 0;
      }
      if len == 1 {
        NumberOne(blk[..1]);
        v := blk[0] % 65536;
        if v == blk[0] {
          return false, v;
        }
      } else {
        LongIsLarge(blk[..len]);
      }
      return true, 0;
    }
  }

  // Three different objects.
  ghost predicate AllApart(x: BigUnsigned, y: BigUnsigned, z: BigUnsigned)
    reads x, y, z
  {
    x != y && x != z && y != z && x.blk != y.blk && x.blk != z.blk && y.blk != z.blk
  }

  // The range of int, which shift amounts come in.
  const INT_MIN := -0x8000_0000
  const INT_MAX := 0x7fff_ffff

  lemma ShiftedOut(x: nat)
    ensures x / Pow(2, 0) == x
  {
    assert Pow(2, 0) == 1;
  }

  lemma HalveShifted(x: nat, l: nat)
    ensures x / Pow(2, l) / 2 == x / Pow(2, l + 1)
    ensures x / Pow(2, l) > 0 <==> Pow(2, l) <= x
  {
    DivDiv(x, Pow(2, l), 2);
    QuotientPositive(x, Pow(2, l), x / Pow(2, l));
  }

  lemma ShiftZero(p: nat)
    ensures 0 * p == 0 && Number([]) == 0
  {}

  lemma BlockShift(b: nat)
    ensures b / N > 0 <==> b >= N
  {
    DivModDef(b, N);
    QuotientPositive(b, N, b / N);
  }

  // Rounding the shift up to whole blocks leaves a left shift within a block.
  lemma RoundUpShift(b: nat)
    ensures var n := (b + N - 1) / N; n >= 0 && 0 <= N * n - b < N && n * N == N * n
  {
    DivModDef(b + N - 1, N);
  }
}