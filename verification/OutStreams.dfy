/** The writing half of a stream: writes may be short or fail. */
module OutStreams {

  /** A reliable stream never fails; a whole-write stream never writes only a part. */
  class OutStream {
    var sent: string
    const reliable: bool
    const wholeWrites: bool

    constructor (reliable: bool, wholeWrites: bool)
      ensures sent == "" && this.reliable == reliable && this.wholeWrites == wholeWrites
    {
      sent := "";
      this.reliable, this.wholeWrites := reliable, wholeWrites;
    }

    method IsWritable() returns (w: bool)
      ensures reliable ==> w
    {
      w := *;
      w := w || reliable;
    }

    /** Some of the bytes, at least one of a nonempty request, or -1. */
    method Write(d: string) returns (n: int)
      modifies this
      ensures n < 0 ==> !reliable && sent == old(sent)
      ensures n >= 0 ==> n <= |d| && sent == old(sent) + d[..n]
      ensures n == 0 ==> d == ""
      ensures wholeWrites && n >= 0 ==> n == |d|
    {
      var fails: bool := *;
      if fails && !reliable { return -1; }
      var k: nat :| k <= |d| && (k == 0 ==> d == "") && (wholeWrites ==> k == |d|) by {
        assert d[..|d|] == d;
      }
      sent := sent + d[..k];
      return k;
    }
  }

  /** `write_data`: write until nothing is left. */
  method WriteData(strm: OutStream, d: string) returns (ok: bool)
    modifies strm
    ensures ok ==> strm.sent == old(strm.sent) + d
    ensures !ok ==> !strm.reliable && exists k :: 0 <= k <= |d| && strm.sent == old(strm.sent) + d[..k]
  {
    var offset := 0;
    while offset < |d|
      invariant 0 <= offset <= |d| && strm.sent == old(strm.sent) + d[..offset]
    {
      var n := strm.Write(d[offset..]);
      if n < 0 { return false; }
      assert d[..offset] + d[offset..][..n] == d[..offset + n];
      offset := offset + n;
    }
    assert d[..offset] == d;
    return true;
  }
}
