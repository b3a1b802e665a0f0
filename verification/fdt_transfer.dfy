/** From a tree through a buffer and back: what the writer leaves behind is what the reader needs. */
module FdtTransfer {
  import opened FdtBytes
  import opened FdtTree
  import opened FdtFormat
  import opened FdtParse
  import opened FdtRoundTrip
  import opened FdtWriters

  /**
   * A buffer that a tree was compiled into, read back as a whole: compiling the result gives the same
   * bytes, and the result is the tree itself exactly when its names and guesses allow it.
   */
  lemma CompiledBufferComesBack(was: Bytes, t: Tree)
    requires OneKinds(t) && Bounded(t) && |Encode(t)| <= |was| < 0x1_0000_0000
    ensures var back := Decode(Overwrite(was, 0, Encode(t)));
      && (back.Some? <==> Readable(t))
      && (back.Some? ==> Encode(back.value) == Encode(t))
      && (back.Some? && back.value == t <==> t.name != [] && Faithful(t))
  {
    var tail := was[|Encode(t)|..];
    hide *;
    OverwriteFront(was, Encode(t));
    ByteFixpoint(t, tail);
    TreeRoundTrip(t, tail);
  }
}
