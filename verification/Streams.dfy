/** Byte streams: a connection read in arbitrary pieces, and a stream written to. */
module Streams {
  import opened ByteText

  /** The read side of a connection. `content` is every byte that arrives before the first
      read that fails; how those bytes are cut into reads is left open. */
  class Conn {
    const content: Bytes
    var pos: nat

    ghost predicate Valid()
      reads this
    {
      pos <= |content|
    }

    constructor (content: Bytes)
      ensures Valid() && this.content == content && pos == 0
    {
      this.content := content;
      pos := 0;
    }

    /** net.Conn.Read into a buffer of `max` bytes. Any positive number of bytes may come
        back, and the failure may be reported with the last bytes or by a later call. */
    method Read(max: nat) returns (data: Bytes, failed: bool)
      requires Valid() && max > 0
      modifies this`pos
      ensures Valid() && pos == old(pos) + |data| && data == content[old(pos)..pos]
      ensures |data| <= max && (data == [] ==> failed)
      ensures failed ==> pos == |content|
    {
      if pos == |content| {
        return [], true;
      }
      var n :| 1 <= n <= max && n <= |content| - pos;
      data, failed := content[pos..pos + n], false;
      pos := pos + n;
      if pos == |content| {
        if * { failed := true; }
      }
    }
  }

  /** io.ReadFull: exactly n bytes, or a failure that has swallowed what there was. The
      outcome does not depend on how the bytes were cut into reads. */
  method ReadFull(c: Conn, n: nat) returns (data: Bytes, ok: bool)
    requires c.Valid()
    modifies c`pos
    ensures c.Valid()
    ensures ok <==> n <= |c.content| - old(c.pos)
    ensures ok ==> data == c.content[old(c.pos)..old(c.pos) + n] && c.pos == old(c.pos) + n
    ensures !ok ==> c.pos == |c.content|
  {
    data := [];
    var failed := false;
    while |data| < n && !failed
      invariant c.Valid() && |data| <= n
      invariant c.pos == old(c.pos) + |data| && data == c.content[old(c.pos)..c.pos]
      invariant failed ==> c.pos == |c.content|
      decreases n - |data|, !failed
    {
      var piece;
      piece, failed := c.Read(n - |data|);
      data := data + piece;
    }
    ok := |data| == n;
  }

  /** A write side, of a tunnel stream or of a connection: everything that has gone out. A sound
      one takes every byte until it is closed; any other may fail at any write. */
  class Sink {
    const sound: bool
    var written: Bytes
    var closed: bool

    constructor (sound: bool)
      ensures this.sound == sound && written == [] && !closed
    {
      this.sound := sound;
      written, closed := [], false;
    }

    /** One write. A failing write may still have sent some of the bytes; one after the close
        sends nothing. */
    method Write(p: Bytes) returns (ok: bool)
      modifies `written
      ensures old(written) <= written <= old(written) + p
      ensures ok ==> !closed && written == old(written) + p
      ensures closed ==> written == old(written)
      ensures sound && !closed ==> ok
    {
      if closed {
        return false;
      }
      var fine := *;
      if sound || fine {
        written := written + p;
        return true;
      }
      var k :| 0 <= k <= |p|;
      assert p == p[..k] + p[k..];
      written := written + p[..k];
      return false;
    }

    method Close()
      modifies `closed
      ensures closed
    {
      closed := true;
    }
  }

  /** One turn of io.Copy: what one read gave is written on. It is over when the read or the
      write has failed, and ok says that nothing was lost. */
  method CopyPiece(dst: Sink, src: Conn) returns (over: bool, ok: bool)
    requires src.Valid()
    modifies dst`written, src`pos
    ensures src.Valid() && old(src.pos) <= src.pos && (over || old(src.pos) < src.pos)
    ensures ok ==> dst.written == old(dst.written) + src.content[old(src.pos)..src.pos]
    ensures ok && over ==> src.pos == |src.content|
    ensures !ok ==> over && old(dst.written) <= dst.written <= old(dst.written) + src.content[old(src.pos)..src.pos]
    ensures dst.sound && !dst.closed ==> ok
  {
    var piece, failed := src.Read(32768);
    over, ok := failed, true;
    if piece != [] {
      ok := dst.Write(piece);
      over := failed || !ok;
    }
  }

  lemma Joined(content: Bytes, i: nat, j: nat, k: nat)
    requires i <= j <= k <= |content|
    ensures content[i..j] + content[j..k] == content[i..k] && content[i..k] <= content[i..]
  {
  }

  /** How far a copy from src has come, when dst held `before` and src stood at `from`. */
  ghost predicate Copying(before: Bytes, from: nat, dst: Sink, src: Conn, over: bool, ok: bool)
    reads dst, src
  {
    && src.Valid() && from <= src.pos
    && (if ok then dst.written == before + src.content[from..src.pos]
        else before <= dst.written <= before + src.content[from..])
    && (ok && over ==> src.pos == |src.content|) && (!ok ==> over)
  }

  /** io.Copy in turns, whatever else happens between them. */
  method CopyOn(dst: Sink, src: Conn, ghost before: Bytes, ghost from: nat) returns (over: bool, ok: bool)
    requires Copying(before, from, dst, src, false, true)
    modifies dst`written, src`pos
    ensures Copying(before, from, dst, src, over, ok)
    ensures old(src.pos) <= src.pos && (over || old(src.pos) < src.pos)
    ensures dst.sound && !dst.closed ==> ok
  {
    ghost var was, mid := src.pos, dst.written;
    over, ok := CopyPiece(dst, src);
    Joined(src.content, from, was, src.pos);
    assert before + src.content[from..was] + src.content[was..src.pos] == before + src.content[from..src.pos];
    if !ok {
      assert before <= mid;
      assert before + src.content[from..src.pos] <= before + src.content[from..];
    }
  }
}
