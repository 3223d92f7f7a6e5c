/** Cutting a byte string into consecutive pieces of at most `limit` elements, the scheme shared
  * by frames and segments: every piece is full except possibly the last. */
module Chunking {

  function Min(a: int, b: int): int {
    if a < b then a else b
  }

  /** The number of pieces: `len / limit` rounded up, as the splitters compute it. */
  function CeilDiv(len: nat, limit: nat): nat
    requires limit > 0
  {
    if len % limit != 0 then len / limit + 1 else len / limit
  }

  lemma DivModUnique(x: int, l: int, q: int, r: int)
    requires l > 0 && 0 <= r < l && x == q * l + r
    ensures x / l == q && x % l == r
  {
    var q', r' := x / l, x % l;
    assert (q - q') * l == r' - r;
    if q - q' >= 1 {
      assert false;
    } else if q - q' <= -1 {
      assert false;
    }
  }

  /** One piece less after removing a full piece. */
  lemma CeilDivStep(len: nat, limit: nat)
    requires limit > 0
    ensures len == 0 ==> CeilDiv(len, limit) == 0
    ensures 0 < len <= limit ==> CeilDiv(len, limit) == 1
    ensures len > limit ==> CeilDiv(len, limit) == 1 + CeilDiv(len - limit, limit)
    ensures len > limit ==> (len - limit) % limit == len % limit
  {
    if 0 < len < limit {
      DivModUnique(len, limit, 0, len);
    } else if len == limit {
      DivModUnique(len, limit, 1, 0);
    } else if len > limit {
      var q, r := len / limit, len % limit;
      DivModUnique(len - limit, limit, q - 1, r);
    }
  }

  /** There are never more pieces than elements. */
  lemma {:induction false} CeilDivBound(len: nat, limit: nat)
    requires limit > 0
    ensures CeilDiv(len, limit) <= len
    decreases len
  {
    CeilDivStep(len, limit);
    if len > limit {
      CeilDivBound(len - limit, limit);
    }
  }

  /** `p` cut into pieces of `limit` elements, the last one possibly shorter. */
  function Chunks<T>(p: seq<T>, limit: nat): (cs: seq<seq<T>>)
    requires limit > 0
    ensures |cs| == CeilDiv(|p|, limit)
    ensures forall i :: 0 <= i < |cs| ==> 0 < |cs[i]| <= limit
    decreases |p|
  {
    CeilDivStep(|p|, limit);
    if p == [] then [] else [p[..Min(limit, |p|)]] + Chunks(p[Min(limit, |p|)..], limit)
  }

  /** The pieces joined back together, in order. */
  function Flatten<T>(cs: seq<seq<T>>): seq<T> {
    if cs == [] then [] else cs[0] + Flatten(cs[1..])
  }

  lemma {:induction false} FlattenAppend<T>(cs: seq<seq<T>>, c: seq<T>)
    ensures Flatten(cs + [c]) == Flatten(cs) + c
  {
    if cs != [] {
      assert (cs + [c])[1..] == cs[1..] + [c];
      FlattenAppend(cs[1..], c);
    }
  }

  lemma {:induction false} FlattenConcat<T>(a: seq<seq<T>>, b: seq<seq<T>>)
    ensures Flatten(a + b) == Flatten(a) + Flatten(b)
  {
    if a == [] {
      assert a + b == b;
    } else {
      assert (a + b)[0] == a[0] && (a + b)[1..] == a[1..] + b;
      FlattenConcat(a[1..], b);
    }
  }

  /** Piece `k` sits between the pieces before it and the pieces after it. */
  lemma FlattenSplit<T>(cs: seq<seq<T>>, k: nat)
    requires k < |cs|
    ensures Flatten(cs) == Flatten(cs[..k]) + cs[k] + Flatten(cs[k + 1..])
    ensures Flatten(cs[..k + 1]) == Flatten(cs[..k]) + cs[k]
  {
    FlattenWhole(cs, k);
    PrefixSnoc(cs, k);
    FlattenAppend(cs[..k], cs[k]);
  }

  lemma FlattenWhole<T>(cs: seq<seq<T>>, k: nat)
    requires k < |cs|
    ensures Flatten(cs) == Flatten(cs[..k]) + cs[k] + Flatten(cs[k + 1..])
  {
    SplitAround(cs, k);
    FlattenConcat(cs[..k], [cs[k]] + cs[k + 1..]);
    FlattenCons(cs[k], cs[k + 1..]);
    SeqAssoc(Flatten(cs[..k]), cs[k], Flatten(cs[k + 1..]));
  }

  /** A sequence is what comes before position `k`, the element there and what comes after. */
  lemma SplitAround<T>(s: seq<T>, k: nat)
    requires k < |s|
    ensures s == s[..k] + ([s[k]] + s[k + 1..])
  {
  }

  /** The chunk at `i`, when the chunks from `i` on are those of `rest`: the front of `rest`,
    * and the chunks after it are those of what follows. */
  lemma ChunkAt<T>(p: seq<T>, limit: nat, rest: seq<T>, i: nat)
    requires limit > 0 && i < |Chunks(p, limit)| && Chunks(p, limit)[i..] == Chunks(rest, limit)
    ensures rest != []
    ensures Chunks(p, limit)[i] == if |rest| >= limit then rest[..limit] else rest
    ensures Chunks(p, limit)[i + 1..] == Chunks(if |rest| >= limit then rest[limit..] else [], limit)
  {
    assert Chunks(p, limit)[i..][0] == Chunks(p, limit)[i];
    assert Chunks(p, limit)[i + 1..] == Chunks(p, limit)[i..][1..];
    if |rest| < limit {
      assert rest[|rest|..] == [];
    }
  }

  /** Appending a prefix one longer appends the prefix and then the next element. */
  lemma AppendSnoc<T>(w: seq<T>, s: seq<T>, i: nat)
    requires i < |s|
    ensures w + s[..i + 1] == w + s[..i] + [s[i]]
  {
    PrefixSnoc(s, i);
    SeqAssoc(w, s[..i], [s[i]]);
  }

  /** A prefix one longer is the prefix and the next element. */
  lemma PrefixSnoc<T>(s: seq<T>, i: nat)
    requires i < |s|
    ensures s[..i + 1] == s[..i] + [s[i]]
  {
  }

  lemma SeqAssoc<T>(a: seq<T>, b: seq<T>, c: seq<T>)
    ensures a + (b + c) == a + b + c
  {
  }

  lemma FlattenCons<T>(c: seq<T>, cs: seq<seq<T>>)
    ensures Flatten([c] + cs) == c + Flatten(cs)
  {
    assert ([c] + cs)[0] == c && ([c] + cs)[1..] == cs;
  }

  /** Pieces of one length `l` join to `l` times as many elements. */
  lemma {:induction false} FlattenUniform<T>(cs: seq<seq<T>>, l: nat)
    requires forall i :: 0 <= i < |cs| ==> |cs[i]| == l
    ensures |Flatten(cs)| == |cs| * l
  {
    if cs != [] {
      FlattenUniform(cs[1..], l);
      assert |cs| * l == l + (|cs| - 1) * l;
    }
  }

  /** Joining the pieces gives back the whole. */
  lemma {:induction false} ChunksFlatten<T>(p: seq<T>, limit: nat)
    requires limit > 0
    ensures Flatten(Chunks(p, limit)) == p
    decreases |p|
  {
    if p != [] {
      var m := Min(limit, |p|);
      ChunksFlatten(p[m..], limit);
      assert Chunks(p, limit)[1..] == Chunks(p[m..], limit);
      assert p == p[..m] + p[m..];
    }
  }

  /** Every piece but the last holds `limit` elements; the last holds the remainder of the
    * division, or `limit` when it divides exactly. */
  lemma {:induction false} ChunkLengths<T>(p: seq<T>, limit: nat, i: nat)
    requires limit > 0 && i < CeilDiv(|p|, limit)
    ensures |Chunks(p, limit)[i]| ==
      if i < CeilDiv(|p|, limit) - 1 || |p| % limit == 0 then limit else |p| % limit
    decreases |p|
  {
    CeilDivStep(|p|, limit);
    if |p| <= limit {
      if |p| < limit {
        DivModUnique(|p|, limit, 0, |p|);
      } else {
        DivModUnique(|p|, limit, 1, 0);
      }
    } else if i > 0 {
      ChunkLengths(p[limit..], limit, i - 1);
    }
  }

  /** `s` filled up to `size` elements with `fill`. */
  function Pad<T>(s: seq<T>, size: nat, fill: T): (r: seq<T>)
    requires |s| <= size
    ensures |r| == size && r[..|s|] == s
    ensures forall i :: |s| <= i < size ==> r[i] == fill
  {
    s + seq(size - |s|, _ => fill)
  }
}
