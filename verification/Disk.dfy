/** Disk blocks and block writes. A disk write of one block is atomic, so a crash
    leaves the disk as it is after some prefix of the writes issued. */
module Disk {

  /** A block holds file-system data or, at the first block of the log, a log header. */
  datatype Block = Data(bytes: seq<bv8>) | Head(n: nat, block: seq<nat>)

  type Image = map<nat, Block>

  datatype Write = Write(blockno: nat, contents: Block)

  function Apply(disk: Image, ws: seq<Write>): Image
  {
    if ws == [] then disk
    else
      var w := ws[|ws| - 1];
      Apply(disk, ws[..|ws| - 1])[w.blockno := w.contents]
  }

  lemma {:induction false} ApplyConcat(disk: Image, us: seq<Write>, ws: seq<Write>)
    ensures Apply(disk, us + ws) == Apply(Apply(disk, us), ws)
    decreases |ws|
  {
    if ws == [] {
      assert us + ws == us;
    } else {
      ApplyConcat(disk, us, ws[..|ws| - 1]);
      assert (us + ws)[..|us + ws| - 1] == us + ws[..|ws| - 1];
    }
  }

  /** Writes change no other blocks than the ones they name. */
  lemma {:induction false} ApplyFrame(disk: Image, ws: seq<Write>, b: nat)
    requires forall w <- ws :: w.blockno != b
    ensures b in Apply(disk, ws) <==> b in disk
    ensures b in disk ==> Apply(disk, ws)[b] == disk[b]
    decreases |ws|
  {
    if ws != [] {
      ApplyFrame(disk, ws[..|ws| - 1], b);
    }
  }
}
