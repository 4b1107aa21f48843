/** The output file of one download, as a sequence of bytes that the
    chunked download pre-sizes with `truncate` and fills by seek-and-write. */
module OutputFile {

  newtype byte = b: int | 0 <= b < 256

  /** `n` zero bytes: what `truncate` adds when it grows a file. */
  function Zeros(n: nat): (z: seq<byte>)
    ensures |z| == n && forall k :: 0 <= k < n ==> z[k] == 0
  {
    seq(n, _ => 0)
  }

  function Max(a: int, b: int): int {
    if a >= b then a else b
  }

  /** The file after `seek(offset)` and `write(body)`: a seek past the end
      leaves a hole of zero bytes, and a write past the end grows the file. */
  function Overwrite(f: seq<byte>, offset: nat, body: seq<byte>): (r: seq<byte>)
    ensures |r| == Max(|f|, offset + |body|)
    ensures r[offset..offset + |body|] == body
  {
    var padded := if offset <= |f| then f else f + Zeros(offset - |f|);
    padded[..offset] + body +
      (if offset + |body| <= |padded| then padded[offset + |body|..] else [])
  }

  /** Byte by byte: inside `[offset, offset + |body|)` the file holds the
      body, elsewhere what it held before (zero in a hole), and it is as long
      as the longer of the old file and the end of the write. */
  lemma OverwriteAt(f: seq<byte>, offset: nat, body: seq<byte>)
    ensures |Overwrite(f, offset, body)| == Max(|f|, offset + |body|)
    ensures forall k :: 0 <= k < |Overwrite(f, offset, body)| ==>
      Overwrite(f, offset, body)[k] ==
        if offset <= k < offset + |body| then body[k - offset]
        else if k < |f| then f[k]
        else 0
  {
    var r := Overwrite(f, offset, body);
    var padded := if offset <= |f| then f else f + Zeros(offset - |f|);
    var tail := if offset + |body| <= |padded| then padded[offset + |body|..] else [];
    assert r == padded[..offset] + body + tail;
    forall k | 0 <= k < |r|
      ensures r[k] == if offset <= k < offset + |body| then body[k - offset]
                      else if k < |f| then f[k] else 0
    {
      if k < offset {
        assert r[k] == padded[k];
      } else if k >= offset + |body| {
        assert r[k] == tail[k - offset - |body|] == padded[k];
      }
    }
  }

  /** A write that fits inside the file keeps its length. */
  lemma OverwriteInsideKeepsLength(f: seq<byte>, offset: nat, body: seq<byte>)
    requires offset + |body| <= |f|
    ensures |Overwrite(f, offset, body)| == |f|
    ensures Overwrite(f, offset, body)[offset..offset + |body|] == body
    ensures Overwrite(f, offset, body)[..offset] == f[..offset]
    ensures Overwrite(f, offset, body)[offset + |body|..] == f[offset + |body|..]
  {
    OverwriteAt(f, offset, body);
  }

  /** Two writes to disjoint regions of a file give the same file in either
      order, so the order in which chunks complete does not matter. */
  lemma DisjointWritesCommute(f: seq<byte>, o1: nat, b1: seq<byte>, o2: nat, b2: seq<byte>)
    requires o1 + |b1| <= o2 && o2 + |b2| <= |f|
    ensures Overwrite(Overwrite(f, o1, b1), o2, b2) == Overwrite(Overwrite(f, o2, b2), o1, b1)
  {
    var f1, f2 := Overwrite(f, o1, b1), Overwrite(f, o2, b2);
    OverwriteAt(f, o1, b1);
    OverwriteAt(f, o2, b2);
    OverwriteAt(f1, o2, b2);
    OverwriteAt(f2, o1, b1);
  }

  /** The file a download writes into. */
  class File {
    var bytes: seq<byte>

    /** `f.truncate(size)` on a file: it is cut to, or grown with zeros to,
        exactly `size` bytes. */
    method Truncate(size: nat)
      modifies this
      ensures bytes == if size <= |old(bytes)| then old(bytes)[..size]
                       else old(bytes) + Zeros(size - |old(bytes)|)
    {
      if size <= |bytes| {
        bytes := bytes[..size];
      } else {
        bytes := bytes + Zeros(size - |bytes|);
      }
    }

    /** `f.seek(offset); f.write(body)`. */
    method WriteAt(offset: nat, body: seq<byte>)
      modifies this
      ensures bytes == Overwrite(old(bytes), offset, body)
    {
      bytes := Overwrite(bytes, offset, body);
    }

    /** `f.write(body)` on a file written front to back. */
    method Append(body: seq<byte>)
      modifies this
      ensures bytes == old(bytes) + body
    {
      bytes := bytes + body;
    }
  }
}
