/** Firmware files: big-endian words and the section headers that point into them. */
module FirmwareFile {
  import opened Machine

  /** A file the driver can address with 32-bit offsets, with room to round a length up. */
  type File = f: seq<U8> | |f| < 0xFFFF_FFF0

  /** The word a byte-swapping load reads at byte offset `at`. */
  function BigEndian(file: File, at: nat): U32
    requires at + 4 <= |file|
  {
    (file[at] as int) * 0x100_0000 + (file[at + 1] as int) * 0x1_0000 + (file[at + 2] as int) * 0x100 + file[at + 3] as int
  }

  /** The four bytes of the file at `at` are those of `word`, the most significant first. */
  ghost predicate HasBytes(word: U32, file: File, at: nat) {
    && at + 4 <= |file|
    && word / 0x100_0000 == file[at] && word / 0x1_0000 % 0x100 == file[at + 1]
    && word / 0x100 % 0x100 == file[at + 2] && word % 0x100 == file[at + 3]
  }

  lemma BytesOfWord(file: File, at: nat)
    requires at + 4 <= |file|
    ensures HasBytes(BigEndian(file, at), file, at)
  {
    var a: int, b: int, c: int, d: int := file[at], file[at + 1], file[at + 2], file[at + 3];
    var w := BigEndian(file, at);
    assert w == a * 0x100_0000 + (b * 0x1_0000 + c * 0x100 + d);
    assert w == (a * 0x100 + b) * 0x1_0000 + (c * 0x100 + d);
    assert w == (a * 0x1_0000 + b * 0x100 + c) * 0x100 + d;
    assert (a * 0x100 + b) % 0x100 == b && (a * 0x1_0000 + b * 0x100 + c) == (a * 0x100 + b) * 0x100 + c;
  }

  /** `n` consecutive words from byte offset `at` on. */
  function Words(file: File, at: nat, n: nat): (ws: seq<U32>)
    requires at + 4 * n <= |file|
    ensures |ws| == n
  {
    seq(n, i requires 0 <= i < n => BigEndian(file, at + 4 * i))
  }
}
