/** Files as byte strings: reading a run of bytes at a position, writing over a position, the
  * places where pieces written back to back start, and the objects that hold a file's contents. */
module FileImage {
  import opened Wrappers
  import opened LittleEndian
  import opened Chunking

  /** `read_exact` of `n` bytes at `pos`: the bytes, or `None` when fewer remain (the reader is
    * then at the end of the file). Reading nothing succeeds wherever the reader is, even past
    * the end. */
  function ReadInto(file: seq<Byte>, pos: nat, n: nat): (r: (Option<seq<Byte>>, nat))
    ensures r.0.Some? ==> |r.0.value| == n && r.1 == pos + n && (n > 0 ==> pos + n <= |file|)
    ensures r.0.Some? && pos + n <= |file| ==> r.0.value == file[pos..pos + n]
    ensures r.0.None? <==> pos + n > |file| && n > 0
    ensures r.0.None? ==> r.1 == (if pos < |file| then |file| else pos)
  {
    if n == 0 then (Some([]), pos)
    else if pos + n <= |file| then (Some(file[pos..pos + n]), pos + n)
    else (None, if pos < |file| then |file| else pos)
  }

  /** `file` with `data` written at `pos`: the bytes there are replaced, the file grows when the
    * write runs past its end, and a gap before `pos` reads as zeros. */
  function Overwrite(file: seq<Byte>, pos: nat, data: seq<Byte>): (r: seq<Byte>)
    ensures |r| == if pos + |data| <= |file| then |file| else pos + |data|
    ensures r[pos..pos + |data|] == data
    ensures forall i :: 0 <= i < |r| && !(pos <= i < pos + |data|) ==>
      r[i] == if i < |file| then file[i] else 0
  {
    var base := if pos + |data| <= |file| then file else file + seq(pos + |data| - |file|, _ => 0);
    base[..pos] + data + base[pos + |data|..]
  }

  /** Writing at the end of the file appends. */
  lemma OverwriteEnd(file: seq<Byte>, data: seq<Byte>)
    ensures Overwrite(file, |file|, data) == file + data
  {
    var r := Overwrite(file, |file|, data);
    assert forall i :: 0 <= i < |r| ==> r[i] == (file + data)[i];
  }

  /** Two writes back to back are one write of both. */
  lemma OverwriteTwice(file: seq<Byte>, pos: nat, a: seq<Byte>, b: seq<Byte>, at: nat)
    requires at == pos + |a|
    ensures Overwrite(Overwrite(file, pos, a), at, b) == Overwrite(file, pos, a + b)
  {
    var r1 := Overwrite(Overwrite(file, pos, a), at, b);
    var r2 := Overwrite(file, pos, a + b);
    forall i | 0 <= i < |r1|
      ensures r1[i] == r2[i]
    {
      if pos <= i < pos + |a| {
        assert r2[i] == r2[pos..pos + |a + b|][i - pos] == (a + b)[i - pos];
        assert Overwrite(file, pos, a)[i] == Overwrite(file, pos, a)[pos..pos + |a|][i - pos];
      } else if at <= i < at + |b| {
        assert r1[i] == r1[at..at + |b|][i - at];
        assert r2[i] == r2[pos..pos + |a + b|][i - pos] == (a + b)[i - pos];
      }
    }
  }

  /** Where each of the pieces `es` starts when they are written back to back after `pre`, and
    * finally where the last one ends. */
  function Starts(pre: seq<Byte>, es: seq<seq<Byte>>): (ps: seq<nat>)
    ensures |ps| == |es| + 1
  {
    seq(|es| + 1, j requires 0 <= j <= |es| => |pre| + |Flatten(es[..j])|)
  }

  /** The first piece starts right after `pre`, and the last ends after all of them. */
  lemma StartsEnds(pre: seq<Byte>, es: seq<seq<Byte>>)
    ensures Starts(pre, es)[0] == |pre| && Starts(pre, es)[|es|] == |pre| + |Flatten(es)|
  {
    assert es[..0] == [] && es[..|es|] == es;
  }

  /** Piece `k` lies between the `k`-th start and the next. */
  lemma PieceAt(pre: seq<Byte>, es: seq<seq<Byte>>, post: seq<Byte>, k: nat)
    requires k < |es|
    ensures var file, ps := pre + Flatten(es) + post, Starts(pre, es);
      ps[k + 1] == ps[k] + |es[k]| <= |file| && file[ps[k]..ps[k + 1]] == es[k]
  {
    var a, b, c := Flatten(es[..k]), es[k], Flatten(es[k + 1..]);
    FlattenSplit(es, k);
    var ps := Starts(pre, es);
    assert ps[k] == |pre + a| && ps[k + 1] == |pre + a| + |b|;
    Middle(pre, a, b, c, post);
  }

  /** The middle piece of a file made of five pieces. */
  lemma Middle(pre: seq<Byte>, a: seq<Byte>, b: seq<Byte>, c: seq<Byte>, post: seq<Byte>)
    ensures var file := pre + (a + b + c) + post;
      |pre + a| + |b| <= |file| && file[|pre + a|..|pre + a| + |b|] == b
  {
    var file := pre + (a + b + c) + post;
    var i := |pre + a|;
    forall j | 0 <= j < |b| ensures file[i..i + |b|][j] == b[j] {
      assert file[i + j] == (a + b + c)[|a| + j] == (a + b)[|a| + j];
    }
  }

  /** A file's contents; an open handle keeps referring to the same file. */
  class Inode {
    var data: seq<Byte>

    constructor (data: seq<Byte>)
      ensures this.data == data
    {
      this.data := data;
    }
  }

  /** The directory: which path names which file. */
  class FileSystem {
    var files: map<string, Inode>

    constructor (files: map<string, Inode>)
      ensures this.files == files
    {
      this.files := files;
    }
  }
}
