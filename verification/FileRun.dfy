/** A write whose source gives out in a block of the file. */
module FileRun {
  import opened FsLayout
  import opened FsContent
  import opened FileSystem

  /** A new file system has room for a write to one page. */
  method OneFile() returns (fs: FileSys)
    ensures fresh(fs) && fs.Valid() && |fs.inodes| == 16 && fs.Now().Content(0) == [1, 2]
  {
    hide Fs.Accounted, Fs.Content, Fits, Covered, CoveredBut;
    fs := new FileSys(100, 50, 30, 40, 16);
    FreeNone(fs.bits);
    assert !fs.bits[50] && |fs.Now().Content(0)| == 0;
    var r := fs.Writei(0, [1, 2], 0, 2);
  }

  /** writei of two bytes of which one is readable answers 0, as if nothing were written. But the byte
      is in the file, and its block is not in the log. */
  method TornWrite() returns (fs: FileSys, r: Outcome, ghost was: Fs)
    ensures fs.Valid() && r == Returned(0) && !Covered(was, fs.Now(), fs.log, fs.bmapstart)
    ensures was.Shape() && AllSized(was) && |was.inodes| == |fs.inodes| == 16
    ensures was.Content(0) == [1, 2] && fs.Now().Content(0) == [7, 2]
  {
    hide Fs.Accounted, Fits, Covered, CoveredBut;
    fs := OneFile();
    fs.log := [];
    was := fs.Now();
    assert was.Sized(0) && was.Page(0, 0)[0] == was.Content(0)[0];
    PageSize(was, 0, 0);
    assert [7][0] != was.Page(0, 0)[(0 + 0) % BSIZE];
    r := fs.Writei(0, [7], 0, 2);
  }
}
