/**
 * `AlignedArray<TX>` (cppexamples/AlignedArray.cpp) as the object the source declares: the
 * storage is an array the methods replace or write in place. Each method is proved to take the
 * object from state `Abs()` to the state the matching function of `AlignedArrays` computes.
 */
module AlignedArrayClass {
  import opened Common
  import opened Bits
  import opened AlignedArrays

  class AlignedArray<T> {
    /** The storage `bufferA`; `MaxNum` is its length. */
    var buffer: array<T>
    var numEntries: nat
    /** The element whose bytes are all 0, which `memset` writes. */
    const zero: T

    ghost predicate Inv()
      reads this
    {
      numEntries <= buffer.Length <= IntMax
    }

    function Abs(): State<T>
      reads this, buffer
      requires Inv()
    {
      State(buffer[..numEntries], buffer.Length)
    }

    constructor (zero: T)
      ensures Inv() && Abs() == Empty() && this.zero == zero
    {
      this.zero := zero;
      buffer := new T[0];
      numEntries := 0;
    }

    method Reserve(num: int) returns (r: Result<(), Fault>)
      requires Inv() && num <= IntMax
      modifies this
      ensures Inv() && (buffer == old(buffer) || fresh(buffer))
      ensures AlignedArrays.Reserve(old(Abs()), num) == if r.Ok? then Ok(Abs()) else Err(r.error)
      ensures r.Err? ==> Abs() == old(Abs())
    {
      if num <= buffer.Length {
        if num <= 0 {
          if num < 0 {
            return Err(IndexOutOfRange);
          }
          buffer := new T[0];
          numEntries := 0;
        }
        return Ok(());
      }
      var b := new T[num](_ => zero);
      CopyInto(b, 0, buffer[..numEntries]);
      assert b[..numEntries] == old(Abs()).items;
      buffer := b;
      return Ok(());
    }

    method SetNum(num: int) returns (r: Result<(), Fault>)
      requires Inv() && num <= IntMax
      modifies this, buffer
      ensures Inv()
      ensures AlignedArrays.SetNum(old(Abs()), num, zero) == if r.Ok? then Ok(Abs()) else Err(r.error)
      ensures r.Err? ==> Abs() == old(Abs())
    {
      if num < 0 {
        return Err(IndexOutOfRange);
      }
      ghost var a0 := Abs();
      ghost var want := AlignedArrays.SetNum(a0, num, zero).value;
      if num > buffer.Length {
        var _ := Reserve(num);
        assert buffer[..numEntries] == a0.items;
      }
      assert buffer.Length == want.maxNum;
      if num > numEntries {
        ghost var kept := buffer[..numEntries];
        Fill(buffer, numEntries, num, zero);
        assert buffer[..num] == kept + seq(num - |kept|, _ => zero);
      } else {
        assert buffer[..num] == a0.items[..num];
      }
      assert buffer[..num] == want.items;
      numEntries := num;
      return Ok(());
    }

    method At(i: int) returns (r: Result<T, Fault>)
      requires Inv() && -IntMax - 1 <= i <= IntMax
      ensures r == AlignedArrays.At(Abs(), i)
    {
      if Unsigned32(i) >= numEntries {
        return Err(IndexOutOfRange);
      }
      return Ok(buffer[i]);
    }

    method SetAt(i: int, x: T) returns (r: Result<(), Fault>)
      requires Inv() && -IntMax - 1 <= i <= IntMax
      modifies buffer
      ensures Inv()
      ensures AlignedArrays.SetAt(old(Abs()), i, x) == if r.Ok? then Ok(Abs()) else Err(r.error)
      ensures r.Err? ==> Abs() == old(Abs())
    {
      if Unsigned32(i) >= numEntries {
        return Err(IndexOutOfRange);
      }
      buffer[i] := x;
      assert buffer[..numEntries] == old(buffer[..numEntries])[i := x];
      return Ok(());
    }

    method Vect(i: int, epv: nat) returns (r: Result<seq<T>, Fault>)
      requires Inv() && -IntMax - 1 <= i <= IntMax && 1 <= epv <= 0x1_0000
      ensures r == VectAt(Abs(), i, epv)
    {
      VectCheckMeans(i, epv, numEntries);
      if i % epv != 0 {
        return Err(NotDivisibleByVectorSize);
      }
      if Unsigned32(epv - 1 + i) >= numEntries {
        return Err(IndexOutOfRange);
      }
      assert buffer[i .. i + epv] == buffer[..numEntries][i .. i + epv];
      return Ok(buffer[i .. i + epv]);
    }

    method SetVect(i: int, v: seq<T>) returns (r: Result<(), Fault>)
      requires Inv() && -IntMax - 1 <= i <= IntMax && 1 <= |v| <= 0x1_0000
      modifies buffer
      ensures Inv()
      ensures SetVectAt(old(Abs()), i, v) == if r.Ok? then Ok(Abs()) else Err(r.error)
      ensures r.Err? ==> Abs() == old(Abs())
    {
      VectCheckMeans(i, |v|, numEntries);
      if i % |v| != 0 {
        return Err(NotDivisibleByVectorSize);
      }
      if Unsigned32(|v| - 1 + i) >= numEntries {
        return Err(IndexOutOfRange);
      }
      ghost var before := buffer[..];
      CopyInto(buffer, i, v);
      WriteFrame(before, i, v, numEntries, buffer.Length);
      assert buffer[..numEntries] == Write(before[..numEntries], i, v);
      return Ok(());
    }
  }
}
