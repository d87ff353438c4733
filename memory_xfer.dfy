// The memory branch of xfer_partial. Debugger and inferior share one address
// space, so a transfer is a byte copy done in supervisor state, bracketed by
// relaxing the MMU protection of the range to read-write and putting back
// the protection read beforehand. Memory is a map from address to byte, the
// MMU attributes a map from address to attribute word, and the instruction
// cache is represented by the log of ranges cleared from it.
module MemoryTransfer {
  import opened NatDefs

  /** The kinds of object GDB asks a target to transfer. */
  datatype TargetObject = ObjectMemory | ObjectLibraries | OtherObject(code: int)

  datatype XferStatus = XferOk | XferEIo | XferOther(code: int)

  /** Which buffer the caller passed: `readbuf` (bytes are copied out of
      the inferior) or, when it is NULL, `writebuf` (bytes are copied in). */
  datatype Transfer = ReadInto | WriteFrom(data: seq<bv8>)

  /** What the caller gets back: the status, the value `*xfered_len` was
      set to (None when it was left alone), and the bytes put into
      `readbuf` (None when nothing was read). */
  datatype Reply = Reply(status: XferStatus, xferedLen: Option<nat>, readBytes: Option<seq<bv8>>)

  predicate InRange(a: nat, offset: nat, len: nat)
  {
    offset <= a < offset + len
  }

  /** Every address of [offset, offset+len) is in the map's domain. */
  predicate Covers<V>(m: map<nat, V>, offset: nat, len: nat)
  {
    forall a :: offset <= a < offset + len ==> a in m
  }

  /** The bytes at [offset, offset+len). */
  function ReadBytes(mem: map<nat, bv8>, offset: nat, len: nat): (r: seq<bv8>)
    requires Covers(mem, offset, len)
    ensures |r| == len
    ensures forall i :: 0 <= i < len ==> r[i] == mem[offset + i]
  {
    seq(len, i requires 0 <= i < len => mem[offset + i])
  }

  /** Memory after `data` has been copied to `offset`. */
  function WriteBytes(mem: map<nat, bv8>, offset: nat, data: seq<bv8>): (r: map<nat, bv8>)
    requires Covers(mem, offset, |data|)
    ensures r.Keys == mem.Keys
    ensures forall a :: a in mem && InRange(a, offset, |data|) ==> r[a] == data[a - offset]
    ensures forall a :: a in mem && !InRange(a, offset, |data|) ==> r[a] == mem[a]
  {
    map a | a in mem :: if InRange(a, offset, |data|) then data[a - offset] else mem[a]
  }

  /** The MMU attributes after `SetMemoryAttrs(offset, len, value)`. */
  function SetAttrs(attrs: map<nat, bv32>, offset: nat, len: nat, value: bv32): (r: map<nat, bv32>)
    ensures r.Keys == attrs.Keys
    ensures forall a :: a in attrs && InRange(a, offset, len) ==> r[a] == value
    ensures forall a :: a in attrs && !InRange(a, offset, len) ==> r[a] == attrs[a]
  {
    map a | a in attrs :: if InRange(a, offset, len) then value else attrs[a]
  }

  class InferiorMemory {
    var mem: map<nat, bv8>
    var attrs: map<nat, bv32>
    /** Ranges cleared from the instruction cache, oldest first. */
    var icacheCleared: seq<(nat, nat)>

    constructor (mem: map<nat, bv8>, attrs: map<nat, bv32>)
      ensures this.mem == mem && this.attrs == attrs && icacheCleared == []
    {
      this.mem := mem;
      this.attrs := attrs;
      icacheCleared := [];
    }

    /** xfer_partial. Memory at address 0 is refused with an I/O error
        before anything is touched. Any other memory transfer reads the
        attribute word at `offset` only, makes the whole range read-write,
        copies the bytes (and on a write clears the instruction cache over
        the range), then sets the whole range to the word read at `offset`;
        it always reports `len` bytes transferred. Libraries are refused;
        any other object goes to the target beneath, or is refused when
        there is none. `readWrite` is the value of MEMATTRF_READ_WRITE. */
    method XferPartial(obj: TargetObject, transfer: Transfer, offset: nat, len: nat,
                       readWrite: bv32, beneath: Option<Reply>) returns (reply: Reply)
      requires obj.ObjectMemory? && offset != 0 ==>
        offset in attrs && Covers(attrs, offset, len) && Covers(mem, offset, len)
      requires transfer.WriteFrom? ==> |transfer.data| == len
      modifies this
      ensures obj.ObjectMemory? && offset != 0 ==>
        reply.status == XferOk && reply.xferedLen == Some(len) &&
        attrs == SetAttrs(old(attrs), offset, len, old(attrs[offset])) &&
        (transfer.ReadInto? ==>
          reply.readBytes == Some(ReadBytes(old(mem), offset, len)) &&
          mem == old(mem) && icacheCleared == old(icacheCleared)) &&
        (transfer.WriteFrom? ==>
          reply.readBytes == None &&
          mem == WriteBytes(old(mem), offset, transfer.data) &&
          icacheCleared == old(icacheCleared) + [(offset, len)])
      ensures !(obj.ObjectMemory? && offset != 0) ==>
        mem == old(mem) && attrs == old(attrs) && icacheCleared == old(icacheCleared) &&
        reply == (if obj.OtherObject? && beneath.Some? then beneath.value else Reply(XferEIo, None, None))
    {
      match obj {
        case ObjectMemory =>
          if offset == 0 {
            return Reply(XferEIo, None, None);
          }
          var currentAttrs := attrs[offset];
          attrs := SetAttrs(attrs, offset, len, readWrite);
          var readBytes: Option<seq<bv8>> := None;
          if transfer.ReadInto? {
            readBytes := Some(ReadBytes(mem, offset, len));
          } else {
            mem := WriteBytes(mem, offset, transfer.data);
            icacheCleared := icacheCleared + [(offset, len)];
          }
          SetAttrsOverwrite(old(attrs), offset, len, readWrite, currentAttrs);
          attrs := SetAttrs(attrs, offset, len, currentAttrs);
          reply := Reply(XferOk, Some(len), readBytes);
        case ObjectLibraries =>
          reply := Reply(XferEIo, None, None);
        case OtherObject(_) =>
          if beneath.Some? {
            return beneath.value;
          }
          reply := Reply(XferEIo, None, None);
      }
    }
  }

  /** Setting the same range twice leaves only the second value. */
  lemma SetAttrsOverwrite(attrs: map<nat, bv32>, offset: nat, len: nat, first: bv32, second: bv32)
    ensures SetAttrs(SetAttrs(attrs, offset, len, first), offset, len, second) == SetAttrs(attrs, offset, len, second)
  {
  }

  /** Reading back a range just written returns the bytes written. */
  lemma ReadAfterWrite(mem: map<nat, bv8>, offset: nat, data: seq<bv8>)
    requires Covers(mem, offset, |data|)
    ensures Covers(WriteBytes(mem, offset, data), offset, |data|)
    ensures ReadBytes(WriteBytes(mem, offset, data), offset, |data|) == data
  {
  }

  /** A write does not change the bytes of a range that does not overlap it. */
  lemma WriteLeavesDisjointRange(mem: map<nat, bv8>, offset: nat, data: seq<bv8>, other: nat, len: nat)
    requires Covers(mem, offset, |data|) && Covers(mem, other, len)
    requires other + len <= offset || offset + |data| <= other
    ensures Covers(WriteBytes(mem, offset, data), other, len)
    ensures ReadBytes(WriteBytes(mem, offset, data), other, len) == ReadBytes(mem, other, len)
  {
  }

  /** The protection comes back as it was exactly when the whole range
      shared the attribute word of its first address; otherwise every
      address of the range ends up with that first word. */
  lemma RestoreExactIffUniform(attrs: map<nat, bv32>, offset: nat, len: nat)
    requires offset in attrs
    ensures SetAttrs(attrs, offset, len, attrs[offset]) == attrs <==>
      forall a :: a in attrs && InRange(a, offset, len) ==> attrs[a] == attrs[offset]
  {
    if SetAttrs(attrs, offset, len, attrs[offset]) == attrs {
      forall a | a in attrs && InRange(a, offset, len)
        ensures attrs[a] == attrs[offset]
      {
        assert SetAttrs(attrs, offset, len, attrs[offset])[a] == attrs[offset];
      }
    }
  }
}
