/** IpAddress.kt: an address as an array of bytes, most significant byte first. */
module IpAddresses {
  import opened Outcomes
  import opened Bytes

  class IpAddress {
    const address: array<byte>

    constructor (bytes: seq<byte>)
      ensures fresh(address) && address[..] == bytes
    {
      address := new byte[|bytes|](i requires 0 <= i < |bytes| => bytes[i]);
    }

    function MaxMask(): nat { 8 * address.Length }

    method Set(i: nat, b: byte)
      requires i < address.Length
      modifies address
      ensures address[..] == old(address[..])[i := b]
    {
      address[i] := b;
    }

    method Fill(value: byte, fromByte: nat)
      requires fromByte <= address.Length
      modifies address
      ensures address[..] == old(address[..fromByte]) + Bytes.Fill(address.Length - fromByte, value)
    {
      var i := fromByte;
      while i < address.Length
        invariant fromByte <= i <= address.Length
        invariant address[..i] == old(address[..fromByte]) + Bytes.Fill(i - fromByte, value)
      {
        address[i] := value;
        i := i + 1;
      }
      assert address[..] == address[..i];
    }

    method Copy() returns (copy: IpAddress)
      ensures fresh(copy) && fresh(copy.address) && copy.address[..] == address[..]
    {
      copy := new IpAddress(address[..]);
    }

    method IsMinIp() returns (all: bool)
      ensures all <==> Val(address[..]) == 0
    {
      all := AllZero(address[..]);
      ZerosAndOnes(address[..]);
    }

    method IsMaxIp() returns (all: bool)
      ensures all <==> AllOnes(address[..])
    {
      all := AllOnes(address[..]);
    }

    /** The next address; overflow exactly at the all-ones address. */
    method Inc() returns (r: Result<IpAddress>)
      ensures r.Failure? <==> AllOnes(address[..])
      ensures r.Success? ==> fresh(r.value) && fresh(r.value.address)
                             && r.value.address[..] == Increment(address[..])
    {
      if AllOnes(address[..]) {
        return Failure("IP address overflow");
      }
      var copy := Copy();
      ghost var b := address[..];
      var i := copy.address.Length;
      while i > 0
        invariant 0 <= i <= |b| == copy.address.Length
        invariant forall k :: 0 <= k < i ==> copy.address[k] == b[k]
        invariant forall k :: i <= k < |b| ==> b[k] == 0xff && copy.address[k] == 0
      {
        i := i - 1;
        copy.Set(i, Succ(copy.address[i]));
        if copy.address[i] != 0 {
          IncrementCarry(b, i);
          assert copy.address[..] == Increment(b);
          break;
        }
      }
      return Success(copy);
    }

    /** The previous address; overflow exactly at the all-zero address. */
    method Dec() returns (r: Result<IpAddress>)
      ensures r.Failure? <==> AllZero(address[..])
      ensures r.Success? ==> fresh(r.value) && fresh(r.value.address)
                             && r.value.address[..] == Decrement(address[..])
    {
      if AllZero(address[..]) {
        return Failure("IP address overflow");
      }
      var copy := Copy();
      ghost var b := address[..];
      var i := copy.address.Length;
      while i > 0
        invariant 0 <= i <= |b| == copy.address.Length
        invariant forall k :: 0 <= k < i ==> copy.address[k] == b[k]
        invariant forall k :: i <= k < |b| ==> b[k] == 0 && copy.address[k] == 0xff
      {
        i := i - 1;
        copy.Set(i, Pred(copy.address[i]));
        if copy.address[i] != 0xff {
          DecrementBorrow(b, i);
          assert copy.address[..] == Decrement(b);
          break;
        }
      }
      return Success(copy);
    }

    method CompareTo(other: IpAddress) returns (d: int)
      ensures d == Compare(address[..], other.address[..])
    {
      if address.Length != other.address.Length {
        return address.Length - other.address.Length;
      }
      var i := 0;
      while i < address.Length
        invariant 0 <= i <= address.Length
        invariant Compare(address[..], other.address[..]) == CompareFrom(address[..], other.address[..], i)
      {
        d := address[i] as int - other.address[i] as int;
        if d != 0 {
          return d;
        }
        i := i + 1;
      }
      return 0;
    }
  }
}
