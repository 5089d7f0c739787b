/**
 * Looking up a file in the initial file system (common/initfs.c over mem/str.c). The archive is in the ustar
 * interchange format of the pax utility of IEEE Std 1003.1, in the form the kernel accepts.
 */
module Initfs {
  import opened Machine
  import opened Status

  /** The length of a header, and the unit that contents are padded to. */
  const BLOCK: nat := 512
  const NAME_LENGTH: nat := 100
  const SIZE_AT: nat := 124
  const SIZE_LENGTH: nat := 12
  const TYPE_AT: nat := 156
  const MAGIC_AT: nat := 257
  const VERSION_AT: nat := 263
  const TYPE_FLAG_FILE: char := 1 as char

  /** The widths of the header's fields in their order. */
  const WIDTHS: seq<nat> := [100, 8, 8, 8, 12, 12, 8, 1, 100, 6, 2, 32, 32, 8, 8, 155, 12]

  /** Where field `k` of a header begins. */
  function FieldAt(k: nat): nat
    requires k <= |WIDTHS|
  {
    if k == 0 then 0 else FieldAt(k - 1) + WIDTHS[k - 1]
  }

  /** The fields that are read: name 0, size 4, type 7, magic string 9 and version 10. */
  lemma HeaderFields()
    ensures |WIDTHS| == 17 && FieldAt(17) == BLOCK == 512
    ensures NAME_LENGTH == WIDTHS[0] && FieldAt(4) == SIZE_AT == 124 && WIDTHS[4] == SIZE_LENGTH == 12
    ensures FieldAt(7) == TYPE_AT == 156 && FieldAt(9) == MAGIC_AT == 257 && FieldAt(10) == VERSION_AT == 263
  {
    assert FieldAt(2) == 108;
    assert FieldAt(4) == 124;
    assert FieldAt(6) == 148;
    assert FieldAt(8) == 157;
    assert FieldAt(10) == 263;
    assert FieldAt(12) == 297;
    assert FieldAt(14) == 337;
    assert FieldAt(16) == 500;
  }

  // ---- Strings -------------------------------------------------------------------------------

  predicate NoNul(s: string) {
    forall i | 0 <= i < |s| :: s[i] != '\0'
  }

  /** A terminated string lies at position `at`. */
  predicate StringAt(mem: string, at: nat, s: string) {
    at + |s| < |mem| && mem[at..at + |s|] == s && mem[at + |s|] == '\0'
  }

  /** `str_length`. */
  method StrLength(mem: string, at: nat) returns (len: nat)
    requires exists k :: at <= k < |mem| && mem[k] == '\0'
    ensures at + len < |mem| && mem[at + len] == '\0' && forall i | at <= i < at + len :: mem[i] != '\0'
  {
    ghost var k :| at <= k < |mem| && mem[k] == '\0';
    len := 0;
    while mem[at + len] != '\0'
      invariant at + len <= k && forall i | at <= i < at + len :: mem[i] != '\0'
      decreases k - len
    {
      len := len + 1;
    }
  }

  /** A terminated string has one length. */
  lemma OneLength(mem: string, at: nat, len: nat, s: string)
    requires at + len < |mem| && mem[at + len] == '\0' && (forall i | at <= i < at + len :: mem[i] != '\0') && NoNul(s)
    ensures StringAt(mem, at, s) ==> |s| == len
  {
    if StringAt(mem, at, s) {
      forall i | at <= i < at + |s|
        ensures mem[i] != '\0'
      {
        assert mem[at..at + |s|][i - at] == s[i - at];
      }
    }
  }

  /** `str_nequal`. */
  method StrNEqual(mem: string, at: nat, other: string, n: nat) returns (same: bool)
    requires 0 < n <= |other| && at + n <= |mem|
    ensures same <==> mem[at..at + n] == other[..n]
  {
    for i := 0 to n
      invariant mem[at..at + i] == other[..i]
    {
      if mem[at + i] != other[i] {
        assert mem[at..at + n][i] != other[..n][i];
        return false;
      }
      assert mem[at..at + (i + 1)] == mem[at..at + i] + [mem[at + i]] && other[..i + 1] == other[..i] + [other[i]];
    }
    return true;
  }

  /** `str_equal`: two empty strings are stopped by the assertion of `str_nequal`. */
  method StrEqual(mem: string, at: nat, other: string) returns (halted: bool, same: bool)
    requires (exists k :: at <= k < |mem| && mem[k] == '\0') && NoNul(other)
    ensures halted <==> other == "" && StringAt(mem, at, "")
    ensures !halted ==> (same <==> StringAt(mem, at, other))
  {
    var len := StrLength(mem, at);
    OneLength(mem, at, len, other);
    halted, same := false, false;
    if len == |other| {
      if len == 0 {
        return true, false;
      }
      same := StrNEqual(mem, at, other, len);
      assert other[..len] == other;
    }
  }

  // ---- Octal numbers -------------------------------------------------------------------------

  predicate IsOctal(s: string) {
    forall i | 0 <= i < |s| :: '0' <= s[i] <= '7'
  }

  function OctValue(s: string): nat
    requires IsOctal(s)
  {
    if s == "" then 0 else 8 * OctValue(s[..|s| - 1]) + (s[|s| - 1] as nat - '0' as nat)
  }

  /** The `width` octal digits of a number. */
  function Octal(n: nat, width: nat): (s: string)
    ensures |s| == width && IsOctal(s)
  {
    if width == 0 then "" else Octal(n / 8, width - 1) + [('0' as nat + n % 8) as char]
  }

  function Pow8(n: nat): (p: nat)
    ensures p > 0
  {
    if n == 0 then 1 else 8 * Pow8(n - 1)
  }

  /** Writing a number in octal and reading it back is the identity on all numbers that fit. */
  lemma {:induction false} OctalRoundTrip(n: nat, width: nat)
    ensures OctValue(Octal(n, width)) == n % Pow8(width)
    decreases width
  {
    if width > 0 {
      OctalRoundTrip(n / 8, width - 1);
      var s := Octal(n, width);
      assert s[..width - 1] == Octal(n / 8, width - 1);
      DigitSplit(n, Pow8(width - 1));
    }
  }

  lemma DigitSplit(n: nat, p: nat)
    requires p > 0
    ensures n % (8 * p) == 8 * (n / 8 % p) + n % 8
  {
    var q := n / 8;
    assert q == q / p * p + q % p;
    assert n == q / p * (8 * p) + (8 * (q % p) + n % 8);
    assert 8 * (q % p) + n % 8 < 8 * p;
    Remainder(n, 8 * p, q / p, 8 * (q % p) + n % 8);
  }

  lemma Remainder(n: nat, m: nat, q: nat, r: nat)
    requires r < m && n == q * m + r
    ensures n % m == r
  {
    var d := n / m - q;
    assert n == n / m * m + n % m;
    assert d * m == n / m * m - q * m;
    if d >= 1 {
      AtLeastOnce(d, m);
    } else if d <= -1 {
      AtLeastOnce(-d, m);
    }
  }

  lemma AtLeastOnce(d: nat, m: nat)
    requires d >= 1
    ensures d * m >= m
  {
  }

  /** `oct_str_to_num`: the last character of the field is not looked at, and the number wraps around at 64 bits. */
  method OctStrToNum(mem: string, at: nat, len: nat) returns (num: nat)
    requires 0 < len && at + len <= |mem| && IsOctal(mem[at..at + len - 1])
    ensures num == OctValue(mem[at..at + len - 1]) % WORD
  {
    num := 0;
    var p, left := at, len - 1;
    while left > 0
      invariant p + left == at + len - 1 && at <= p && IsOctal(mem[at..p])
      invariant num == OctValue(mem[at..p]) % WORD
      decreases left
    {
      assert mem[at..at + len - 1][p - at] == mem[p];
      var digit := mem[p] as nat - '0' as nat;
      OctStep(mem, at, p, at + len - 1, num, digit);
      num := num * 8 % WORD;
      num := (num + digit) % WORD;
      p, left := p + 1, left - 1;
    }
  }

  lemma OctStep(mem: string, at: nat, p: nat, end: nat, num: nat, digit: nat)
    requires at <= p < end <= |mem| && IsOctal(mem[at..end]) && IsOctal(mem[at..p]) && num == OctValue(mem[at..p]) % WORD
    requires mem[p] as nat == '0' as nat + digit
    ensures IsOctal(mem[at..p + 1]) && (num * 8 % WORD + digit) % WORD == OctValue(mem[at..p + 1]) % WORD
  {
    OctExtend(mem, at, p, end, digit);
    hide OctValue, IsOctal;
    Wraps(OctValue(mem[at..p]), digit);
  }

  lemma OctExtend(mem: string, at: nat, p: nat, end: nat, digit: nat)
    requires at <= p < end <= |mem| && IsOctal(mem[at..end]) && IsOctal(mem[at..p]) && mem[p] as nat == '0' as nat + digit
    ensures IsOctal(mem[at..p + 1]) && OctValue(mem[at..p + 1]) == 8 * OctValue(mem[at..p]) + digit
  {
    assert mem[at..end][p - at] == mem[p];
    assert mem[at..p + 1] == mem[at..p] + [mem[p]] && mem[at..p + 1][..p - at] == mem[at..p];
  }

  lemma Wraps(v: nat, digit: nat)
    ensures (v % WORD * 8 % WORD + digit) % WORD == (8 * v + digit) % WORD
  {
    var q, r := v / WORD, v % WORD;
    var a, b := 8 * r / WORD, 8 * r % WORD;
    assert v == q * WORD + r && 8 * r == a * WORD + b;
    assert 8 * v + digit == (8 * q + a) * WORD + (b + digit);
    WholeWords(8 * q + a, b + digit);
  }

  lemma WholeWords(k: nat, x: nat)
    ensures (k * WORD + x) % WORD == x % WORD
  {
  }

  // ---- Archives ------------------------------------------------------------------------------

  /** A file with its name, its type and its contents. */
  datatype File = File(name: string, kind: char, contents: string)

  predicate IsFile(f: File) {
    NoNul(f.name) && |f.name| < NAME_LENGTH && |f.contents| < Pow8(SIZE_LENGTH - 1)
  }

  /** Header and padded contents. */
  function Extent(f: File): nat {
    BLOCK + RoundUp(|f.contents|, BLOCK)
  }

  /** An entry takes whole blocks, and no more of them than it needs. */
  lemma EntryBlocks(f: File)
    ensures Extent(f) % 512 == 0 && 512 + |f.contents| <= Extent(f) < 1024 + |f.contents|
  {
  }

  /** At position `at` there is a header for this file, followed by its contents. The other header fields are free. */
  predicate EntryAt(mem: string, at: nat, f: File) {
    && IsFile(f) && at + Extent(f) <= |mem|
    && StringAt(mem, at, f.name)
    && mem[at + SIZE_AT..at + SIZE_AT + SIZE_LENGTH - 1] == Octal(|f.contents|, SIZE_LENGTH - 1)
    && mem[at + TYPE_AT] == f.kind
    && StringAt(mem, at + MAGIC_AT, "ustar") && mem[at + VERSION_AT..at + VERSION_AT + 2] == "00"
    && mem[at + BLOCK..at + BLOCK + |f.contents|] == f.contents
  }

  /** From position `at` on there are these files and nothing more. */
  predicate ArchiveAt(mem: string, at: nat, files: seq<File>)
    decreases files
  {
    if files == [] then at == |mem|
    else EntryAt(mem, at, files[0]) && ArchiveAt(mem, at + Extent(files[0]), files[1..])
  }

  /** The characters of a header that carries nothing but what is read. */
  function HeaderChar(f: File, i: nat): char
    requires i < BLOCK
  {
    if i < |f.name| then f.name[i]
    else if SIZE_AT <= i < SIZE_AT + SIZE_LENGTH - 1 then Octal(|f.contents|, SIZE_LENGTH - 1)[i - SIZE_AT]
    else if i == TYPE_AT then f.kind
    else if MAGIC_AT <= i < MAGIC_AT + 5 then "ustar"[i - MAGIC_AT]
    else if VERSION_AT <= i < VERSION_AT + 2 then '0'
    else '\0'
  }

  function Header(f: File): (s: string)
    ensures |s| == BLOCK
  {
    seq(BLOCK, i requires 0 <= i < BLOCK => HeaderChar(f, i))
  }

  /** The header and the contents, padded to whole blocks. */
  function EncodeFile(f: File): (s: string)
    ensures |s| == Extent(f)
  {
    Header(f) + (f.contents + seq(RoundUp(|f.contents|, BLOCK) - |f.contents|, _ => '\0'))
  }

  /** Writing an archive. */
  function Encode(files: seq<File>): string {
    if files == [] then "" else EncodeFile(files[0]) + Encode(files[1..])
  }

  /** What has been written is an archive of the files written. */
  lemma {:induction false} Encoded(mem: string, at: nat, files: seq<File>)
    requires (forall f | f in files :: IsFile(f)) && at <= |mem| && mem[at..] == Encode(files)
    ensures ArchiveAt(mem, at, files)
    decreases files
  {
    hide IsFile, EntryAt, EncodeFile, Extent;
    if files != [] {
      var f, more := files[0], Encode(files[1..]);
      Split(mem, at, EncodeFile(f), more);
      FileEncoded(mem, at, f);
      Encoded(mem, at + Extent(f), files[1..]);
    } else {
      assert |mem[at..]| == 0;
    }
  }

  lemma Split(mem: string, at: nat, first: string, more: string)
    requires at <= |mem| && mem[at..] == first + more
    ensures at + |first| <= |mem| && mem[at..at + |first|] == first && mem[at + |first|..] == more
  {
    assert mem[at..at + |first|] == mem[at..][..|first|] && mem[at + |first|..] == mem[at..][|first|..];
  }

  lemma FileEncoded(mem: string, at: nat, f: File)
    requires IsFile(f) && at + Extent(f) <= |mem| && mem[at..at + Extent(f)] == EncodeFile(f)
    ensures EntryAt(mem, at, f)
  {
    hide Octal, Pow8, RoundUp, IsFile;
    FileName(f);
    forall j | at <= j < at + BLOCK
      ensures mem[j] == HeaderChar(f, j - at)
    {
      assert mem[at..at + Extent(f)][j - at] == Header(f)[j - at];
    }
    forall j | at + BLOCK <= j < at + BLOCK + |f.contents|
      ensures mem[j] == f.contents[j - at - BLOCK]
    {
      assert mem[at..at + Extent(f)][j - at] == f.contents[j - at - BLOCK];
    }
    hide EncodeFile;
    assert mem[at..at + |f.name|] == f.name && mem[at + |f.name|] == '\0';
    assert mem[at + SIZE_AT..at + SIZE_AT + SIZE_LENGTH - 1] == Octal(|f.contents|, SIZE_LENGTH - 1);
    assert mem[at + MAGIC_AT..at + MAGIC_AT + 5] == "ustar" && mem[at + MAGIC_AT + 5] == '\0';
    assert mem[at + VERSION_AT..at + VERSION_AT + 2] == "00";
    assert mem[at + BLOCK..at + BLOCK + |f.contents|] == f.contents;
  }

  lemma FileName(f: File)
    requires IsFile(f)
    ensures |f.name| < NAME_LENGTH
  {
  }

  /** The position of the entry of file `k`. */
  function Position(files: seq<File>, k: nat): nat
    requires k <= |files|
  {
    if k == 0 then 0 else Extent(files[0]) + Position(files[1..], k - 1)
  }

  /** What is looked up: the number of the first file with the name, or the number of files. */
  function FirstNamed(files: seq<File>, name: string): (k: nat)
    ensures k <= |files| && (k < |files| ==> files[k].name == name) && forall j | 0 <= j < k :: files[j].name != name
  {
    if files == [] || files[0].name == name then 0 else 1 + FirstNamed(files[1..], name)
  }

  lemma ElevenDigits()
    ensures Pow8(SIZE_LENGTH - 1) == 0x2_0000_0000
  {
    assert Pow8(3) == 0x200;
    assert Pow8(6) == 0x4_0000;
    assert Pow8(9) == 0x800_0000;
  }

  /** The size field holds the size: eleven octal digits never wrap around. */
  lemma SizeRead(mem: string, at: nat, f: File)
    requires EntryAt(mem, at, f)
    ensures IsOctal(mem[at + SIZE_AT..at + SIZE_AT + SIZE_LENGTH - 1])
    ensures OctValue(mem[at + SIZE_AT..at + SIZE_AT + SIZE_LENGTH - 1]) % WORD == |f.contents|
  {
    ElevenDigits();
    OctalRoundTrip(|f.contents|, SIZE_LENGTH - 1);
    hide Pow8, Octal, OctValue;
    assert |f.contents| % Pow8(SIZE_LENGTH - 1) == |f.contents|;
  }

  /** A name at a position is the one of the entry there. */
  lemma NameIs(mem: string, at: nat, f: File, path: string)
    requires EntryAt(mem, at, f) && NoNul(path)
    ensures StringAt(mem, at, path) <==> f.name == path
  {
    if StringAt(mem, at, path) {
      forall i | at <= i < at + |f.name|
        ensures mem[i] != '\0'
      {
        assert mem[at..at + |f.name|][i - at] == f.name[i - at];
      }
      OneLength(mem, at, |f.name|, path);
    }
  }

  /** The assertions of `initfs_lookup` on a header, and the size in it. */
  method ReadHeader(mem: string, at: nat, ghost f: File) returns (size: nat)
    requires EntryAt(mem, at, f)
    ensures size == |f.contents|
  {
    SizeRead(mem, at, f);
    assert mem[at + MAGIC_AT + 5] == '\0';
    assert "00"[..2] == "00";
    hide Pow8, Octal, OctValue, IsFile, RoundUp;
    var halted, magic := StrEqual(mem, at + MAGIC_AT, "ustar");
    assert !halted && magic;
    var version := StrNEqual(mem, at + VERSION_AT, "00", 2);
    assert version;
    size := OctStrToNum(mem, at + SIZE_AT, SIZE_LENGTH);
  }

  /** The search stands at entry `k`, or at the end, and has not seen the name. */
  ghost predicate Looking(mem: string, start: nat, hdr: nat, files: seq<File>, k: nat, path: string) {
    && k <= |files| && hdr == start + Position(files, k) && hdr % BLOCK == 0
    && ArchiveAt(mem, hdr - start, files[k..]) && (forall j | 0 <= j < k :: files[j].name != path)
  }

  lemma LookingAt(mem: string, start: nat, hdr: nat, files: seq<File>, k: nat, path: string)
    requires Looking(mem, start, hdr, files, k, path)
    ensures k <= |files| && hdr - start <= |mem| && (hdr - start < |mem| <==> k < |files|)
    ensures k < |files| ==> EntryAt(mem, hdr - start, files[k])
    ensures k == |files| ==> FirstNamed(files, path) == k
    ensures k < |files| && files[k].name == path ==> FirstNamed(files, path) == k
  {
    hide EntryAt;
    if k < |files| {
      assert files[k..][0] == files[k];
      assert Extent(files[k]) > 0;
      EntryFits(mem, hdr - start, files[k]);
    }
  }

  lemma EntryFits(mem: string, at: nat, f: File)
    requires EntryAt(mem, at, f)
    ensures at + BLOCK + |f.contents| <= |mem| && at + BLOCK <= |mem|
  {
  }

  lemma LookingOn(mem: string, start: nat, hdr: nat, files: seq<File>, k: nat, path: string)
    requires Looking(mem, start, hdr, files, k, path) && k < |files| && files[k].name != path
    ensures Looking(mem, start, RoundUp(hdr + BLOCK + |files[k].contents|, BLOCK), files, k + 1, path)
    ensures hdr < RoundUp(hdr + BLOCK + |files[k].contents|, BLOCK)
  {
    hide EntryAt, StringAt;
    PositionNext(files, k);
    NextAligned(hdr, |files[k].contents|);
    assert files[k..][1..] == files[k + 1..] && files[k..][0] == files[k];
  }

  /** The next header is where the next entry is. */
  lemma NextAligned(hdr: nat, size: nat)
    requires hdr % BLOCK == 0
    ensures RoundUp(hdr + BLOCK + size, BLOCK) == hdr + BLOCK + RoundUp(size, BLOCK)
    ensures RoundUp(hdr + BLOCK + size, BLOCK) % BLOCK == 0
  {
  }

  /**
   * `initfs_lookup` on an archive at a block boundary: it ends, and it finds the first file with the name, or none. An
   * assertion stops it if and only if the name is too long, or there is such a file and it is not of type 1 or the name is empty.
   */
  method InitfsLookup(mem: string, start: nat, path: string, ghost files: seq<File>)
    returns (halted: bool, res: Status, filePtr: nat, fileSize: nat)
    requires 0 < start && start + |mem| < WORD && start % BLOCK == 0 && ArchiveAt(mem, 0, files)
    requires NoNul(path)
    ensures var k := FirstNamed(files, path);
            && (halted <==> |path| >= 100 || (k < |files| && (path == "" || files[k].kind != 1 as char)))
            && (!halted && k == |files| ==> res == ENOENT)
            && (!halted && k < |files| ==>
                    && res == SUCCESS && filePtr == start + Position(files, k) + 512 && fileSize == |files[k].contents|
                    && filePtr - start + fileSize <= |mem| && mem[filePtr - start..filePtr - start + fileSize] == files[k].contents)
  {
    hide ArchiveAt, Position, Extent, RoundUp, Pow8, Octal, FirstNamed, Looking;
    var hdr, end := start, start + |mem|;
    ghost var k := 0;
    LookingStart(mem, start, files, path);
    LookingAt(mem, start, hdr, files, k, path);
    halted, filePtr, fileSize := |path| >= NAME_LENGTH, 0, 0;
    if halted {
      res := SUCCESS;
      return;
    }
    while hdr < end
      invariant start <= hdr <= end && Looking(mem, start, hdr, files, k, path) && (hdr < end <==> k < |files|) && !halted
      decreases end - hdr
    {
      LookingAt(mem, start, hdr, files, k, path);
      var found;
      halted, found, fileSize := Probe(mem, hdr - start, path, files[k]);
      if found {
        HeadIs(mem, start, hdr, files, k, path);
        return halted, SUCCESS, hdr + BLOCK, fileSize;
      }
      LookingOn(mem, start, hdr, files, k, path);
      hdr := RoundUp(hdr + BLOCK + fileSize, BLOCK);
      k := k + 1;
      LookingAt(mem, start, hdr, files, k, path);
    }
    LookingAt(mem, start, hdr, files, k, path);
    res := ENOENT;
  }

  /** No address computed on the way wraps around. */
  lemma NoWrap(start: nat, at: nat, size: nat, length: nat)
    requires start + length < WORD && (start + at) % BLOCK == 0 && RoundUp(start + at + BLOCK + size, BLOCK) <= start + length
    ensures start + at + BLOCK + size + BLOCK - 1 < WORD
  {
  }

  lemma LookingStart(mem: string, start: nat, files: seq<File>, path: string)
    requires start % BLOCK == 0 && ArchiveAt(mem, 0, files)
    ensures Looking(mem, start, start, files, 0, path)
  {
    assert files[0..] == files;
  }

  lemma HeadIs(mem: string, start: nat, hdr: nat, files: seq<File>, k: nat, path: string)
    requires Looking(mem, start, hdr, files, k, path) && k < |files| && EntryAt(mem, hdr - start, files[k])
    ensures hdr == start + Position(files, k)
    ensures hdr - start + BLOCK + |files[k].contents| <= |mem|
    ensures mem[hdr - start + BLOCK..hdr - start + BLOCK + |files[k].contents|] == files[k].contents
  {
  }

  /** One turn: the header is checked and the name compared, and only where it agrees the type is looked at. */
  method Probe(mem: string, at: nat, path: string, ghost f: File) returns (halted: bool, found: bool, size: nat)
    requires EntryAt(mem, at, f) && NoNul(path)
    ensures size == |f.contents| && (found <==> f.name == path) && (halted <==> found && (path == "" || f.kind != 1 as char))
  {
    NameIs(mem, at, f, path);
    assert mem[at + |f.name|] == '\0';
    size := ReadHeader(mem, at, f);
    halted, found := StrEqual(mem, at, path);
    if halted {
      found := true;
    } else {
      halted := found && mem[at + TYPE_AT] != TYPE_FLAG_FILE;
    }
  }

  lemma {:induction false} PositionNext(files: seq<File>, k: nat)
    requires k < |files|
    ensures Position(files, k + 1) == Position(files, k) + Extent(files[k])
    decreases k
  {
    if k > 0 {
      PositionNext(files[1..], k - 1);
    }
  }
}
