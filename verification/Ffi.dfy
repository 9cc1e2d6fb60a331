/** The bounded copy into a caller-owned buffer, and the return codes every entry point shares. */
module Ffi {
  import opened Bytes

  const ZPR_OK := 0
  const ZPR_ERR := -1
  const ZPR_ERR_SHORT_BUFFER := -2

  /** What the copy looks at in the caller's buffer: whether the pointer is null, and the capacity. */
  datatype Dest = Dest(isNull: bool, cap: nat)

  function CopyCode(len: nat, dest: Dest): int {
    if len > dest.cap then ZPR_ERR_SHORT_BUFFER
    else if dest.isNull && len > 0 then ZPR_ERR
    else ZPR_OK
  }

  function DestOf(out: array?<byte>, cap: nat): Dest {
    Dest(out == null, cap)
  }

  /** All or nothing: the message is copied whole, or not one byte of the buffer changes and
      the true length is still reported. */
  method CopyInto(bytes: Message, out: array?<byte>, cap: nat) returns (rc: int, outLen: nat)
    requires out != null ==> cap <= out.Length
    modifies out
    ensures outLen == |bytes|
    ensures rc == CopyCode(|bytes|, DestOf(out, cap))
    ensures rc == -2 <==> |bytes| > cap
    ensures rc == 0 <==> |bytes| <= cap && (out == null ==> bytes == [])
    ensures rc == -1 <==> |bytes| <= cap && out == null && bytes != []
    ensures out != null && rc == ZPR_OK ==> out[..] == bytes + old(out[..])[|bytes|..]
    ensures out != null && rc != ZPR_OK ==> out[..] == old(out[..])
  {
    outLen := |bytes|;
    if |bytes| > cap {
      return ZPR_ERR_SHORT_BUFFER, outLen;
    }
    if out == null {
      return if |bytes| == 0 then ZPR_OK else ZPR_ERR, outLen;
    }
    forall i | 0 <= i < |bytes| {
      out[i] := bytes[i];
    }
    rc := ZPR_OK;
  }
}
