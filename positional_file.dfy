/**
 * The output file of the assembler as a byte sequence with POSIX
 * positional-write semantics: `ftruncate` cuts or zero-extends it, a write
 * at a position past the end extends it with zero bytes up to that
 * position, and a write of zero bytes changes nothing.
 *
 * `ApplyWrites` replays a sequence of positional writes; the second half of
 * the module proves that when the written regions are pairwise disjoint the
 * result depends only on WHICH writes were made, not on their order.
 */
module PositionalFile {

  newtype byte = x: int | 0 <= x < 256

  function Max(a: nat, b: nat): nat { if a < b then b else a }

  function Zeros(n: nat): (z: seq<byte>)
    ensures |z| == n
    ensures forall i :: 0 <= i < n ==> z[i] == 0
  {
    seq(n, _ => 0)
  }

  /** `ftruncate(fd, n)`: the file is cut, or zero-extended, to exactly n bytes. */
  function Resize(f: seq<byte>, n: nat): (r: seq<byte>)
    ensures |r| == n
  {
    seq(n, p requires 0 <= p => if p < |f| then f[p] else 0)
  }

  lemma ResizeBytes(f: seq<byte>, n: nat)
    ensures forall p :: 0 <= p < n ==> Resize(f, n)[p] == if p < |f| then f[p] else 0
  {
  }

  /**
   * `pwrite(fd, data, pos)`: `data` lands at `[pos, pos + |data|)`, any gap
   * between the old end and `pos` reads as zeros, every other byte is kept;
   * a write of no bytes leaves the file as it is.
   */
  function WriteAt(f: seq<byte>, data: seq<byte>, pos: nat): (r: seq<byte>)
    ensures |data| == 0 ==> r == f
    ensures |data| > 0 ==> |r| == Max(|f|, pos + |data|)
  {
    if |data| == 0 then f
    else
      seq(Max(|f|, pos + |data|), p requires 0 <= p =>
        if pos <= p < pos + |data| then data[p - pos] else if p < |f| then f[p] else 0)
  }

  /** A write changes exactly the bytes of its own region. */
  lemma WriteAtBytes(f: seq<byte>, data: seq<byte>, pos: nat)
    ensures forall i :: 0 <= i < |data| ==> WriteAt(f, data, pos)[pos + i] == data[i]
    ensures forall p :: 0 <= p < |WriteAt(f, data, pos)| && !(pos <= p < pos + |data|) ==>
              WriteAt(f, data, pos)[p] == if p < |f| then f[p] else 0
  {
  }

  /** An open file descriptor and the bytes of the file behind it. */
  class OutputFile {
    var contents: seq<byte>
    var isOpen: bool

    /** `openSync(path, 'w')`: creates the file, or truncates an existing one to empty. */
    constructor Open()
      ensures contents == [] && isOpen
    {
      contents := [];
      isOpen := true;
    }

    /** `ftruncateSync(fd, n)` */
    method Truncate(n: nat)
      requires isOpen
      modifies this
      ensures isOpen && contents == Resize(old(contents), n)
    {
      contents := Resize(contents, n);
    }

    /** `writeSync(fd, data, 0, data.length, pos)` */
    method Write(data: seq<byte>, pos: nat)
      requires isOpen
      modifies this
      ensures isOpen && contents == WriteAt(old(contents), data, pos)
    {
      contents := WriteAt(contents, data, pos);
    }

    /** `closeSync(fd)` */
    method Close()
      requires isOpen
      modifies this
      ensures !isOpen && contents == old(contents)
    {
      isOpen := false;
    }
  }

  // ---------------------------------------------------------------------
  // Replaying positional writes

  /** Write k puts `bodies[k]` at `offsets[k]`; `order` lists the writes in the order they happen. */
  predicate WritesInRange(offsets: seq<nat>, bodies: seq<seq<byte>>, order: seq<nat>) {
    |offsets| == |bodies| && forall i :: 0 <= i < |order| ==> order[i] < |offsets|
  }

  /** The file after the writes listed in `order`, in that order; positional writes never shrink it. */
  function ApplyWrites(f: seq<byte>, offsets: seq<nat>, bodies: seq<seq<byte>>, order: seq<nat>): (r: seq<byte>)
    requires WritesInRange(offsets, bodies, order)
  {
    if |order| == 0 then f
    else
      var k := order[|order| - 1];
      WriteAt(ApplyWrites(f, offsets, bodies, order[..|order| - 1]), bodies[k], offsets[k])
  }

  /** Replaying one more write is writing it on top of the replay so far. */
  lemma ApplyWritesSnoc(f: seq<byte>, offsets: seq<nat>, bodies: seq<seq<byte>>, order: seq<nat>, k: nat)
    requires WritesInRange(offsets, bodies, order) && k < |offsets|
    ensures WritesInRange(offsets, bodies, order + [k])
    ensures ApplyWrites(f, offsets, bodies, order + [k]) == WriteAt(ApplyWrites(f, offsets, bodies, order), bodies[k], offsets[k])
  {
    assert (order + [k])[..|order|] == order;
  }

  /** Writes that all start at or after h never change the first h bytes, nor shorten the file. */
  lemma {:induction false} ApplyWritesKeepsPrefix(f: seq<byte>, offsets: seq<nat>, bodies: seq<seq<byte>>, order: seq<nat>, h: nat)
    requires WritesInRange(offsets, bodies, order) && h <= |f|
    requires forall k :: 0 <= k < |offsets| ==> h <= offsets[k]
    ensures |f| <= |ApplyWrites(f, offsets, bodies, order)|
    ensures ApplyWrites(f, offsets, bodies, order)[..h] == f[..h]
  {
    if |order| > 0 {
      var m := order[|order| - 1];
      var before := ApplyWrites(f, offsets, bodies, order[..|order| - 1]);
      ApplyWritesKeepsPrefix(f, offsets, bodies, order[..|order| - 1], h);
      WriteAtBytes(before, bodies[m], offsets[m]);
      var r := WriteAt(before, bodies[m], offsets[m]);
      forall p | 0 <= p < h ensures r[p] == f[p] {
        assert before[..h][p] == f[..h][p];
      }
    }
  }

  /** No two of the writes touch a common byte. */
  predicate Disjoint(offsets: seq<nat>, bodies: seq<seq<byte>>) {
    && |offsets| == |bodies|
    && forall j, k :: 0 <= j < |offsets| && 0 <= k < |offsets| && j != k ==>
         offsets[j] + |bodies[j]| <= offsets[k] || offsets[k] + |bodies[k]| <= offsets[j]
  }

  /** Byte p lies in none of the regions of the writes listed in `order`. */
  predicate Untouched(p: nat, offsets: seq<nat>, bodies: seq<seq<byte>>, order: seq<nat>)
    requires WritesInRange(offsets, bodies, order)
  {
    forall k :: k in order ==> !(offsets[k] <= p < offsets[k] + |bodies[k]|)
  }

  /**
   * What a file r holds after the writes in `order` were applied to f,
   * stated without reference to their order: f's length or the end of some
   * non-empty write, whichever is larger; each written region holds its
   * body; every other byte is f's byte, or zero past f's end.
   */
  predicate Describes(r: seq<byte>, f: seq<byte>, offsets: seq<nat>, bodies: seq<seq<byte>>, order: seq<nat>)
    requires WritesInRange(offsets, bodies, order)
  {
    && |f| <= |r|
    && (forall k :: k in order && |bodies[k]| > 0 ==> offsets[k] + |bodies[k]| <= |r|)
    && (|r| == |f| || exists k :: k in order && |bodies[k]| > 0 && |r| == offsets[k] + |bodies[k]|)
    && (forall k, i :: k in order && 0 <= i < |bodies[k]| ==> r[offsets[k] + i] == bodies[k][i])
    && (forall p :: 0 <= p < |r| && Untouched(p, offsets, bodies, order) ==> r[p] == if p < |f| then f[p] else 0)
  }

  /** The file holds `data` at `pos`: it reaches that far and its bytes there are `data`'s. */
  predicate HoldsAt(r: seq<byte>, data: seq<byte>, pos: nat) {
    pos + |data| <= |r| && r[pos..pos + |data|] == data
  }

  /** In a described file, the region of each non-empty write listed holds its body. */
  lemma DescribedRegion(r: seq<byte>, f: seq<byte>, offsets: seq<nat>, bodies: seq<seq<byte>>, order: seq<nat>, k: nat)
    requires WritesInRange(offsets, bodies, order) && Describes(r, f, offsets, bodies, order)
    requires k in order && |bodies[k]| > 0
    ensures HoldsAt(r, bodies[k], offsets[k])
  {
    forall i | 0 <= i < |bodies[k]| ensures r[offsets[k]..offsets[k] + |bodies[k]|][i] == bodies[k][i] {
      assert r[offsets[k] + i] == bodies[k][i];
    }
  }

  /** In a described file over an f that is zero from h on, every byte from h on that no write touched is zero. */
  lemma DescribedZeroPast(r: seq<byte>, f: seq<byte>, offsets: seq<nat>, bodies: seq<seq<byte>>, order: seq<nat>, h: nat)
    requires WritesInRange(offsets, bodies, order) && Describes(r, f, offsets, bodies, order)
    requires forall p :: h <= p < |f| ==> f[p] == 0
    ensures forall p :: h <= p < |r| && Untouched(p, offsets, bodies, order) ==> r[p] == 0
  {
  }

  lemma {:induction false} ApplyWritesDescribed(f: seq<byte>, offsets: seq<nat>, bodies: seq<seq<byte>>, order: seq<nat>)
    requires WritesInRange(offsets, bodies, order) && Disjoint(offsets, bodies)
    ensures Describes(ApplyWrites(f, offsets, bodies, order), f, offsets, bodies, order)
  {
    if |order| > 0 {
      var prefix := order[..|order| - 1];
      var m := order[|order| - 1];
      var before := ApplyWrites(f, offsets, bodies, prefix);
      var r := ApplyWrites(f, offsets, bodies, order);
      ApplyWritesDescribed(f, offsets, bodies, prefix);
      assert r == WriteAt(before, bodies[m], offsets[m]);
      WriteAtBytes(before, bodies[m], offsets[m]);
      assert forall k :: k in order <==> k in prefix || k == m;
      // the length witness
      if |r| != |f| {
        if |bodies[m]| > 0 && |r| == offsets[m] + |bodies[m]| {
        } else {
          var k :| k in prefix && |bodies[k]| > 0 && |before| == offsets[k] + |bodies[k]|;
          assert k in order;
        }
      }
      // the bytes of every earlier write survive the last one
      forall k, i | k in order && 0 <= i < |bodies[k]| ensures r[offsets[k] + i] == bodies[k][i] {
        if k != m {
          assert k in prefix;
          assert before[offsets[k] + i] == bodies[k][i];
        }
      }
      forall p | 0 <= p < |r| && Untouched(p, offsets, bodies, order)
        ensures r[p] == if p < |f| then f[p] else 0
      {
        assert Untouched(p, offsets, bodies, prefix);
      }
    }
  }

  /** Two files described by the same set of writes are the same file. */
  lemma DescribedUnique(r1: seq<byte>, r2: seq<byte>, f: seq<byte>, offsets: seq<nat>, bodies: seq<seq<byte>>,
                        order1: seq<nat>, order2: seq<nat>)
    requires WritesInRange(offsets, bodies, order1) && WritesInRange(offsets, bodies, order2)
    requires forall k :: k in order1 <==> k in order2
    requires Describes(r1, f, offsets, bodies, order1) && Describes(r2, f, offsets, bodies, order2)
    ensures r1 == r2
  {
    assert |r1| == |r2|;
    forall p | 0 <= p < |r1| ensures r1[p] == r2[p] {
      if Untouched(p, offsets, bodies, order1) {
        assert Untouched(p, offsets, bodies, order2);
      } else {
        var k :| k in order1 && offsets[k] <= p < offsets[k] + |bodies[k]|;
        assert k in order2;
        var i := p - offsets[k];
        assert r1[offsets[k] + i] == bodies[k][i];
        assert r2[offsets[k] + i] == bodies[k][i];
      }
    }
  }

  /**
   * Disjoint positional writes commute: replaying the same writes in any two
   * orders yields the same file.
   */
  lemma WriteOrderIrrelevant(f: seq<byte>, offsets: seq<nat>, bodies: seq<seq<byte>>, order1: seq<nat>, order2: seq<nat>)
    requires WritesInRange(offsets, bodies, order1) && WritesInRange(offsets, bodies, order2)
    requires Disjoint(offsets, bodies)
    requires forall k :: k in order1 <==> k in order2
    ensures ApplyWrites(f, offsets, bodies, order1) == ApplyWrites(f, offsets, bodies, order2)
  {
    ApplyWritesDescribed(f, offsets, bodies, order1);
    ApplyWritesDescribed(f, offsets, bodies, order2);
    DescribedUnique(ApplyWrites(f, offsets, bodies, order1), ApplyWrites(f, offsets, bodies, order2),
                    f, offsets, bodies, order1, order2);
  }
}
