/** The byte-order-mark step of ReadJSONConfigFile: before the configuration
    bytes are parsed as JSON, one leading UTF-8 byte-order mark is dropped
    (bytes.TrimPrefix with the prefix EF BB BF). */
module Bom {

  newtype byte = b: int | 0 <= b < 256

  /** The UTF-8 encoding of U+FEFF. */
  const Mark: seq<byte> := [0xEF, 0xBB, 0xBF]

  /** `s` begins with the byte-order mark (bytes.HasPrefix). */
  predicate HasMark(s: seq<byte>) {
    |s| >= |Mark| && s[..|Mark|] == Mark
  }

  /** The configuration bytes handed to the JSON decoder: `s` without its
      leading byte-order mark, if it has one. The result is always a suffix of
      the input, and it is exactly three bytes shorter precisely when the input
      starts with the mark. */
  function TrimMark(s: seq<byte>): (r: seq<byte>)
    ensures |r| <= |s| && r == s[|s| - |r|..]
    ensures |r| == |s| - |Mark| <==> HasMark(s)
    ensures |r| == |s| <==> !HasMark(s)
  {
    if HasMark(s) then s[|Mark|..] else s
  }

  /** Trimming undoes prefixing the mark, whatever follows it. */
  lemma TrimAfterMark(s: seq<byte>)
    ensures HasMark(Mark + s)
    ensures TrimMark(Mark + s) == s
  {
    assert (Mark + s)[..|Mark|] == Mark;
    assert (Mark + s)[|Mark|..] == s;
  }

  /** Input without the mark is handed on unchanged, including input shorter
      than the mark and input that holds only part of it. */
  lemma TrimWithoutMark(s: seq<byte>)
    requires !HasMark(s)
    ensures TrimMark(s) == s
  {
  }

  /** Only one mark is removed: a doubled mark leaves the second in place, so
      trimming is not idempotent. */
  lemma TrimRemovesOnlyOne(s: seq<byte>)
    ensures TrimMark(Mark + Mark + s) == Mark + s
    ensures HasMark(TrimMark(Mark + Mark + s))
    ensures TrimMark(TrimMark(Mark + Mark + s)) != TrimMark(Mark + Mark + s)
  {
    assert Mark + Mark + s == Mark + (Mark + s);
    TrimAfterMark(Mark + s);
    TrimAfterMark(s);
  }

  /** Whatever the input, the bytes that reach the decoder are the input with
      at most one mark in front removed: putting the removed part back gives
      the input. */
  lemma TrimSplitsInput(s: seq<byte>)
    ensures s == (if HasMark(s) then Mark else []) + TrimMark(s)
  {
    if HasMark(s) {
      assert s == s[..|Mark|] + s[|Mark|..];
    }
  }
}
