/**
  The archive loader of fs/tar.c, and an encoder to the ustar interchange format (pax in
  IEEE Std 1003.1) for it to invert.
 */
module Tar {
  import opened Bits
  import opened CStrings
  import opened Sequences
  import opened Vfs

  const BLOCK: nat := 512
  const NAME_SIZE: nat := 100
  const SIZE_FIELD: nat := 124
  const SIZE_DIGITS: nat := 11
  const TYPE_FIELD: nat := 156
  const DIRECTORY: Byte := 53 // '5'
  const ZERO: Byte := 48      // '0'

  /** The bytes `vfs_register_node` may read of a name. */
  const NAME_READ: nat := 127

  // ---------- numbers ----------

  predicate OctalDigit(c: Byte) {
    ZERO <= c < ZERO + 8
  }

  /** The octal digits among the bytes, as a number. */
  function OctalValue(s: seq<Byte>): nat {
    if s == [] then 0
    else
      var n, c: int := OctalValue(s[..|s| - 1]), s[|s| - 1];
      if OctalDigit(s[|s| - 1]) then n * 8 + (c - 48) else n
  }

  /** A digit counts eight times as much for every digit behind it. */
  lemma {:induction false} OctalWeight(c: Byte, s: seq<Byte>)
    requires '0' as int <= c <= '7' as int && forall d | d in s :: '0' as int <= d <= '7' as int
    ensures OctalValue([c] + s) == (c - '0' as int) * Power8(|s|) + OctalValue(s)
  {
    var t := [c] + s;
    if s == [] {
      assert t == [c] && t[..0] == [];
    } else {
      var n := |s| - 1;
      assert t[..|t| - 1] == [c] + s[..n] && t[|t| - 1] == s[n] && s[n] in s;
      assert forall d | d in s[..n] :: d in s;
      OctalWeight(c, s[..n]);
      OctalShift(c - '0' as int, Power8(n), OctalValue(s[..n]), s[n]);
    }
  }

  lemma OctalShift(c: int, p: nat, v: nat, d: int)
    ensures (c * p + v) * 8 + (d - 48) == c * (8 * p) + (v * 8 + (d - 48))
  {
  }

  /** A byte that is no digit does not count. */
  lemma OctalSkips(s: seq<Byte>, c: Byte)
    requires c < '0' as int || c > '7' as int
    ensures OctalValue(s + [c]) == OctalValue(s)
  {
    assert (s + [c])[..|s|] == s;
  }

  /** `octal_to_int` */
  method OctalToInt(memory: array<Byte>, from: nat, size: nat) returns (n: nat)
    requires from + size <= memory.Length
    ensures n == OctalValue(memory[from..from + size])
  {
    n := 0;
    for i := 0 to size
      invariant n == OctalValue(memory[from..from + i])
    {
      assert memory[from..from + i + 1][..i] == memory[from..from + i];
      var c: int := memory[from + i];
      if OctalDigit(memory[from + i]) {
        n := n * 8 + (c - 48);
      }
    }
  }

  /** n with k octal digits */
  function Octal(n: nat, k: nat): (s: seq<Byte>)
    ensures |s| == k
    decreases k
  {
    if k == 0 then [] else
      var digit: int := 48 + n % 8;
      Octal(n / 8, k - 1) + [digit]
  }

  function Power8(k: nat): (p: nat)
    ensures p > 0
  {
    if k == 0 then 1 else 8 * Power8(k - 1)
  }

  lemma {:induction false} OctalRoundTrip(n: nat, k: nat)
    requires n < Power8(k)
    ensures OctalValue(Octal(n, k)) == n
    decreases k
  {
    if k > 0 {
      OctalRoundTrip(n / 8, k - 1);
      assert Octal(n, k)[..k - 1] == Octal(n / 8, k - 1);
    }
  }

  /** `(size + 511) & ~511` */
  function Padded(size: Word): nat {
    And((size + 511) % WORD_LIMIT, 0xFFFF_FFFF_FFFF_FE00)
  }

  lemma PaddedRoundsUp(size: Word)
    requires size <= WORD_LIMIT - 512
    ensures Padded(size) % BLOCK == 0 && size <= Padded(size) < size + BLOCK
  {
    SmallMod(size + 511, WORD_LIMIT);
    Align512(size + 511);
  }

  lemma {:induction false} OctalBound(s: seq<Byte>)
    ensures OctalValue(s) < Power8(|s|)
  {
    if s != [] {
      OctalBound(s[..|s| - 1]);
    }
  }

  lemma ElevenDigits()
    ensures Power8(SIZE_DIGITS) == 0x2_0000_0000
  {
  }

  // ---------- what the loader does ----------

  /** The header at pos, as registered. */
  function HeaderFile(memory: seq<Byte>, pos: nat): File
    requires pos + BLOCK <= |memory|
  {
    File(CString(memory[pos..pos + NAME_READ]),
         OctalValue(memory[pos + SIZE_FIELD..pos + SIZE_FIELD + SIZE_DIGITS]),
         memory[pos + TYPE_FIELD] == DIRECTORY,
         pos + BLOCK)
  }

  lemma HeaderSize(memory: seq<Byte>, pos: nat)
    requires pos + BLOCK <= |memory|
    ensures HeaderFile(memory, pos).size < 0x2_0000_0000
  {
    OctalBound(memory[pos + SIZE_FIELD..pos + SIZE_FIELD + SIZE_DIGITS]);
    ElevenDigits();
  }

  datatype Parsed = Files(files: seq<File>) | RanOff(files: seq<File>)

  /** The files from pos on, in archive order, up to an empty name or to where memory ends. */
  function Parse(memory: seq<Byte>, pos: nat): Parsed
    decreases |memory| - pos
  {
    if pos + BLOCK > |memory| then
      if pos < |memory| && memory[pos] == NUL then Files([]) else RanOff([])
    else if memory[pos] == NUL then Files([])
    else
      var f := HeaderFile(memory, pos);
      HeaderSize(memory, pos);
      var rest := Parse(memory, pos + BLOCK + Padded(f.size));
      ConsFile(f, rest)
  }

  function ConsFile(f: File, rest: Parsed): Parsed {
    rest.(files := [f] + rest.files)
  }

  /** `before` and then what the parser finds from pos on. */
  ghost predicate Continues(parsed: Parsed, before: seq<File>, memory: seq<Byte>, pos: nat) {
    var rest := Parse(memory, pos);
    parsed == rest.(files := before + rest.files)
  }

  lemma ParseStarts(memory: seq<Byte>, pos: nat)
    ensures Continues(Parse(memory, pos), [], memory, pos)
  {
    var rest := Parse(memory, pos);
    assert [] + rest.files == rest.files;
  }

  lemma ParseStep(parsed: Parsed, before: seq<File>, memory: seq<Byte>, pos: nat)
    requires Continues(parsed, before, memory, pos) && pos + BLOCK <= |memory| && memory[pos] != NUL
    ensures HeaderFile(memory, pos).size < WORD_LIMIT
    ensures var f := HeaderFile(memory, pos);
            Continues(parsed, before + [f], memory, pos + BLOCK + Padded(f.size))
  {
    hide HeaderFile;
    hide Padded;
    HeaderSize(memory, pos);
    var f := HeaderFile(memory, pos);
    var rest := Parse(memory, pos + BLOCK + Padded(f.size));
    assert before + ([f] + rest.files) == before + [f] + rest.files;
  }

  lemma ParseEnds(parsed: Parsed, before: seq<File>, memory: seq<Byte>, pos: nat)
    requires Continues(parsed, before, memory, pos)
    requires pos + BLOCK > |memory| || memory[pos] == NUL
    ensures parsed == if pos < |memory| && memory[pos] == NUL then Files(before) else RanOff(before)
  {
    assert before + [] == before;
  }

  /** `tar_init`: false if the archive runs off memory.  The newest file is the last of the archive. */
  method TarInit(memory: array<Byte>, archive: nat, vfs: FileList) returns (ok: bool)
    requires vfs.Valid()
    modifies vfs
    ensures vfs.Valid() && ok == Parse(memory[..], archive).Files?
    ensures vfs.View() == Reverse(Parse(memory[..], archive).files) + old(vfs.View())
  {
    hide Parse;
    hide Continues;
    hide HeaderFile;
    hide Padded;
    hide Reverse;
    hide CString;
    hide FileList.Valid;
    hide FileList.View;
    var current := archive;
    ghost var mem, parsed, done := memory[..], Parse(memory[..], archive), [];
    ParseStarts(mem, archive);
    ReverseNothing<File>();
    while true
      invariant vfs.Valid() && vfs.View() == Reverse(done) + old(vfs.View())
      invariant memory[..] == mem && Continues(parsed, done, mem, current)
      decreases memory.Length - current
    {
      if current >= memory.Length {
        ParseEnds(parsed, done, mem, current);
        return false;
      }
      if memory[current] == NUL {
        ParseEnds(parsed, done, mem, current);
        return true;
      }
      if current + BLOCK > memory.Length {
        ParseEnds(parsed, done, mem, current);
        return false;
      }
      ParseStep(parsed, done, mem, current);
      ghost var f := HeaderFile(mem, current);
      var size, isDir := ReadHeader(memory, current);
      var data := current + BLOCK;
      vfs.Register(memory, current, size, isDir, data);
      RegisteredIs(mem, current, size, isDir);
      ReverseAppend(done, f);
      assert [f] + (Reverse(done) + old(vfs.View())) == Reverse(done + [f]) + old(vfs.View());
      done := done + [f];
      current := current + BLOCK + Padded(size);
    }
  }

  method ReadHeader(memory: array<Byte>, pos: nat) returns (size: nat, isDir: bool)
    requires pos + BLOCK <= memory.Length
    ensures size == HeaderFile(memory[..], pos).size && isDir == HeaderFile(memory[..], pos).isDir
  {
    size := OctalToInt(memory, pos + SIZE_FIELD, SIZE_DIGITS);
    isDir := memory[pos + TYPE_FIELD] == DIRECTORY;
  }

  lemma RegisteredIs(memory: seq<Byte>, pos: nat, size: nat, isDir: bool)
    requires pos + BLOCK <= |memory|
    requires size == HeaderFile(memory, pos).size && isDir == HeaderFile(memory, pos).isDir
    ensures File(CString(memory[pos..pos + NAME_READ]), size, isDir, pos + BLOCK) == HeaderFile(memory, pos)
  {
  }

  // ---------- the format ----------

  /**
    An archive member.  `owner` are mode, user and group, `stamps` time and checksum, `rest` all
    behind the type; the loader does not look at them, nor at the byte that ends the size.
   */
  datatype Entry = Entry(name: seq<Byte>, content: seq<Byte>, typeflag: Byte,
                         owner: seq<Byte>, sizeEnd: Byte, stamps: seq<Byte>, rest: seq<Byte>)
  {
    predicate Valid() {
      && 0 < |name| <= NAME_SIZE && NUL !in name
      && |content| < 0x2_0000_0000
      && |owner| == 24 && |stamps| == 20 && |rest| == 355
    }

    /** The name is followed by a NUL, in its own field or right behind it. */
    predicate NameEnds()
      requires Valid()
    {
      |name| < NAME_SIZE || owner[0] == NUL
    }
  }

  /** The fields before the size: name, padded with NUL, and owner. */
  function Front(e: Entry): (h: seq<Byte>)
    requires e.Valid()
    ensures |h| == SIZE_FIELD && h[..|e.name|] == e.name && h[NAME_SIZE] == e.owner[0]
    ensures forall i | |e.name| <= i < NAME_SIZE :: h[i] == NUL
  {
    e.name + Zeros(NAME_SIZE - |e.name|) + e.owner
  }

  /** The fields behind the digits of the size. */
  function Back(e: Entry): (h: seq<Byte>)
    requires e.Valid()
    ensures |h| == BLOCK - SIZE_FIELD - SIZE_DIGITS && h[TYPE_FIELD - SIZE_FIELD - SIZE_DIGITS] == e.typeflag
  {
    [e.sizeEnd] + e.stamps + [e.typeflag] + e.rest
  }

  function Header(e: Entry): (h: seq<Byte>)
    requires e.Valid()
    ensures |h| == BLOCK
  {
    Front(e) + Octal(|e.content|, SIZE_DIGITS) + Back(e)
  }

  /** The content, filled up to whole blocks. */
  function Data(e: Entry): (d: seq<Byte>)
    requires e.Valid()
    ensures |e.content| <= |d| == Padded(|e.content|) && d[..|e.content|] == e.content
  {
    PaddedRoundsUp(|e.content|);
    e.content + Zeros(Padded(|e.content|) - |e.content|)
  }

  /** All members, and two zero blocks. */
  function Encode(entries: seq<Entry>): seq<Byte>
    requires forall e | e in entries :: e.Valid()
  {
    if entries == [] then Zeros(2 * BLOCK)
    else Header(entries[0]) + (Data(entries[0]) + Encode(entries[1..]))
  }

  /** s lies in memory from pos on. */
  predicate LiesAt(memory: seq<Byte>, pos: nat, s: seq<Byte>) {
    pos + |s| <= |memory| && memory[pos..pos + |s|] == s
  }

  lemma LiesSplit(memory: seq<Byte>, pos: nat, s: seq<Byte>, t: seq<Byte>)
    requires LiesAt(memory, pos, s + t)
    ensures LiesAt(memory, pos, s) && LiesAt(memory, pos + |s|, t)
  {
    var u := memory[pos..pos + |s + t|];
    assert memory[pos..pos + |s|] == u[..|s|] && memory[pos + |s|..pos + |s| + |t|] == u[|s|..];
    assert (s + t)[..|s|] == s && (s + t)[|s|..] == t;
  }

  /** Where the fields of a header are. */
  lemma HeaderFields(e: Entry)
    requires e.Valid()
    ensures var h := Header(e);
            && h[..|e.name|] == e.name
            && (forall i | |e.name| <= i < NAME_SIZE :: h[i] == NUL)
            && h[NAME_SIZE] == e.owner[0]
            && h[SIZE_FIELD..SIZE_FIELD + SIZE_DIGITS] == Octal(|e.content|, SIZE_DIGITS)
            && h[TYPE_FIELD] == e.typeflag
  {
    hide Front;
    hide Back;
    hide Octal;
    assert Header(e)[..|e.name|] == Front(e)[..|e.name|];
  }

  /** A registered name is the member's name exactly if a NUL follows it. */
  lemma NameIsRead(memory: seq<Byte>, pos: nat, e: Entry)
    requires e.Valid() && LiesAt(memory, pos, Header(e))
    ensures HeaderFile(memory, pos).name == e.name <==> e.NameEnds()
    ensures memory[pos] != NUL
  {
    HeaderFields(e);
    var h := Header(e);
    var s := memory[pos..pos + NAME_READ];
    var u := memory[pos..pos + BLOCK];
    assert u == h && memory[pos] == u[0];
    SliceOfSlice(memory, pos, BLOCK, 0, NAME_READ);
    assert s == u[0..NAME_READ] == h[..NAME_READ];
    assert s[..|e.name|] == h[..|e.name|];
    assert e.name[0] in e.name && h[0] == h[..|e.name|][0];
    if e.NameEnds() {
      CStringIs(s, e.name);
    }
  }

  /** A name of 100 letters, followed by the digits of the mode. */
  const FULL_NAME: Entry := Entry(seq(100, i => 97), [], 48, seq(24, i => 48), NUL, Zeros(20), Zeros(355))

  /** It is not registered under its name. */
  lemma FullNameIsMisread()
    ensures FULL_NAME.Valid() && HeaderFile(Header(FULL_NAME), 0).name != FULL_NAME.name
  {
    var h := Header(FULL_NAME);
    assert h[0..0 + |h|] == h;
    NameIsRead(h, 0, FULL_NAME);
  }

  /** A header is read back: size, kind, and where the content is. */
  lemma HeaderIsRead(memory: seq<Byte>, pos: nat, e: Entry)
    requires e.Valid() && LiesAt(memory, pos, Header(e))
    ensures var f := HeaderFile(memory, pos);
            f.size == |e.content| && (f.isDir <==> e.typeflag == DIRECTORY) && f.data == pos + BLOCK
  {
    HeaderFields(e);
    ElevenDigits();
    OctalRoundTrip(|e.content|, SIZE_DIGITS);
    SliceOfSlice(memory, pos, BLOCK, SIZE_FIELD, SIZE_DIGITS);
    assert memory[pos + TYPE_FIELD] == memory[pos..pos + BLOCK][TYPE_FIELD];
  }

  /** The file stands for the entry: same name, kind, size, and its content in memory. */
  ghost predicate Stands(memory: seq<Byte>, f: File, e: Entry) {
    f.name == e.name && (f.isDir <==> e.typeflag == '5' as int) && f.size == |e.content| && LiesAt(memory, f.data, e.content)
  }

  ghost predicate AllStand(memory: seq<Byte>, files: seq<File>, entries: seq<Entry>) {
    |files| == |entries| && forall i | 0 <= i < |files| :: Stands(memory, files[i], entries[i])
  }

  /** Loading an archive finds exactly its members, in order, with their contents. */
  lemma {:induction false} RoundTrip(memory: seq<Byte>, pos: nat, entries: seq<Entry>)
    requires forall e | e in entries :: e.Valid() && e.NameEnds()
    requires LiesAt(memory, pos, Encode(entries))
    ensures Parse(memory, pos).Files? && AllStand(memory, Parse(memory, pos).files, entries)
    decreases |entries|
  {
    hide Header;
    hide Data;
    hide Stands;
    hide Parse;
    hide LiesAt;
    if entries == [] {
      EndIsRead(memory, pos);
    } else {
      var e, rest := entries[0], entries[1..];
      MemberIsRead(memory, pos, e, Encode(rest));
      RoundTrip(memory, pos + BLOCK + Padded(|e.content|), rest);
    }
  }

  lemma EndIsRead(memory: seq<Byte>, pos: nat)
    requires LiesAt(memory, pos, Zeros(2 * BLOCK))
    ensures Parse(memory, pos) == Files([])
  {
    assert memory[pos] == Zeros(2 * BLOCK)[0];
  }

  lemma MemberIsRead(memory: seq<Byte>, pos: nat, e: Entry, rest: seq<Byte>)
    requires e.Valid() && e.NameEnds() && LiesAt(memory, pos, Header(e) + (Data(e) + rest))
    ensures var next := pos + BLOCK + Padded(|e.content|);
            && LiesAt(memory, next, rest)
            && exists f :: Stands(memory, f, e) && Parse(memory, pos) == ConsFile(f, Parse(memory, next))
  {
    hide Header;
    hide HeaderFile;
    LiesSplit(memory, pos, Header(e), Data(e) + rest);
    LiesSplit(memory, pos + BLOCK, Data(e), rest);
    assert Data(e) == e.content + Data(e)[|e.content|..];
    LiesSplit(memory, pos + BLOCK, e.content, Data(e)[|e.content|..]);
    NameIsRead(memory, pos, e);
    HeaderIsRead(memory, pos, e);
    assert Stands(memory, HeaderFile(memory, pos), e);
  }

  // ---------- opening ----------

  /** In the list as loaded, `vfs_open` finds the last member of a name, or nothing if there is none. */
  lemma LastOneWins(memory: seq<Byte>, files: seq<File>, entries: seq<Entry>, name: seq<Byte>)
    requires AllStand(memory, files, entries)
    ensures var i := Lookup(Reverse(files), name);
            if i < |files| then
              && Stands(memory, Reverse(files)[i], entries[|files| - 1 - i]) && entries[|files| - 1 - i].name == name
              && forall j | |files| - 1 - i < j < |entries| :: entries[j].name != name
            else
              forall j | 0 <= j < |entries| :: entries[j].name != name
  {
    var i := Lookup(Reverse(files), name);
    if i < |files| {
      ReverseAt(files, i);
    }
    forall j | 0 <= j < |entries| && |files| - 1 - j < i
      ensures entries[j].name != name
    {
      ReverseAt(files, |files| - 1 - j);
    }
  }

  /** What is read from an opened file are chunks of the member's content. */
  lemma ContentIsRead(memory: seq<Byte>, f: File, e: Entry, sizes: seq<nat>)
    requires Stands(memory, f, e) && f.data + f.size <= |memory|
    ensures ReadOn(memory[f.data..f.data + f.size], 0, sizes) == Chunk(e.content, 0, Sum(sizes))
    ensures Sum(sizes) >= |e.content| ==> ReadOn(memory[f.data..f.data + f.size], 0, sizes) == e.content
  {
    hide ReadOn;
    ChunksConcatenate(e.content, 0, sizes);
  }
}
