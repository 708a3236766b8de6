/** A disk image as bytes: positioned writes, their overlap, and where the journal region lies. */
module DiskImage {
  import opened Bytes

  type Image = seq<byte>

  const JOURNAL_OFFSET: nat := 397312
  const JOURNAL_SLOTS: nat := 512
  const DATA_OFFSET: nat := 659520

  function At(img: Image, i: nat): byte {
    if i < |img| then img[i] else 0
  }

  /** Seek to `off` and write `data`: the file grows, zero filled, when the write ends past its end. */
  function Overwrite(img: Image, off: nat, data: seq<byte>): (r: Image)
    ensures |r| == if data == [] then |img| else Max(|img|, off + |data|)
    ensures forall i {:trigger r[i]} {:trigger At(img, i)} :: 0 <= i < |r| ==>
              r[i] == if off <= i < off + |data| then data[i - off] else At(img, i)
  {
    if data == [] then img
    else seq(Max(|img|, off + |data|),
             i requires 0 <= i => if off <= i < off + |data| then data[i - off] else At(img, i))
  }

  lemma OverwriteNothing(img: Image, off: nat)
    ensures Overwrite(img, off, []) == img
  {
  }

  /** Two writes one behind the other are one write. */
  lemma OverwriteJoins(img: Image, off: nat, a: seq<byte>, b: seq<byte>)
    requires a != [] && b != []
    ensures Overwrite(Overwrite(img, off, a), off + |a|, b) == Overwrite(img, off, a + b)
  {
    var l, r := Overwrite(Overwrite(img, off, a), off + |a|, b), Overwrite(img, off, a + b);
    assert |l| == |r|;
    forall i | 0 <= i < |r| ensures l[i] == r[i] {
      assert At(Overwrite(img, off, a), i) == if off <= i < off + |a| then a[i - off] else At(img, i);
    }
  }

  predicate InJournal(i: int) { JOURNAL_OFFSET <= i < DATA_OFFSET }

  /** The `len` bytes at `off` keep clear of the journal region. */
  predicate ClearOfJournal(off: nat, len: nat) {
    off + len <= JOURNAL_OFFSET || DATA_OFFSET <= off
  }

  /** The image with its journal region blanked: everything the rest of the file system can see. */
  function Blank(img: Image): (r: Image)
    ensures |r| == |img|
    ensures forall i :: 0 <= i < |r| ==> r[i] == if InJournal(i) then 0 else img[i]
  {
    seq(|img|, i requires 0 <= i < |img| => if InJournal(i) then 0 else img[i])
  }

  lemma BlankOverwrite(img: Image, off: nat, data: seq<byte>)
    requires ClearOfJournal(off, |data|)
    ensures Blank(Overwrite(img, off, data)) == Overwrite(Blank(img), off, data)
  {
    var l, r := Blank(Overwrite(img, off, data)), Overwrite(Blank(img), off, data);
    forall i | 0 <= i < |r| ensures l[i] == r[i] {
      assert At(Blank(img), i) == if i < |img| && !InJournal(i) then img[i] else 0;
    }
  }

  lemma BlankIgnoresJournal(img: Image, off: nat, data: seq<byte>)
    requires JOURNAL_OFFSET <= off && off + |data| <= DATA_OFFSET <= |img|
    ensures Blank(Overwrite(img, off, data)) == Blank(img)
  {
    var l, r := Blank(Overwrite(img, off, data)), Blank(img);
    forall i | 0 <= i < |r| ensures l[i] == r[i] {
      assert At(img, i) == img[i];
    }
  }
}
