/** The tar walker of btf_helpers.c, which finds one file in an archive held in memory. */
module Tar {
  import opened BpfMap
  import Ksyms

  const BLOCK: nat := 512
  const NAME_LEN: nat := 100
  const SIZE_AT: nat := 124
  const SIZE_LEN: nat := 12
  const INT_MAX: nat := 0x7fff_ffff

  // ----- Octal numbers -----

  predicate IsOctal(c: char) {
    '0' <= c <= '7'
  }

  predicate AllOctal(d: string) {
    forall i | 0 <= i < |d| :: IsOctal(d[i])
  }

  function OctalValue(d: string): nat
    requires AllOctal(d)
  {
    if d == "" then 0
    else assert IsOctal(d[|d| - 1]); 8 * OctalValue(d[..|d| - 1]) + (d[|d| - 1] as int - '0' as int)
  }

  /** The octal digits that start at `at`. */
  function DigitsAt(s: string, at: nat): (d: string)
    ensures AllOctal(d)
    decreases |s| - at
  {
    if at < |s| && IsOctal(s[at]) then [s[at]] + DigitsAt(s, at + 1) else ""
  }

  /** `sscanf(field, "%o", &length)` on a field that starts with a digit: an unsigned number stored in an int. */
  function ScanOctal(s: string, at: nat, length: int): int {
    var d := DigitsAt(s, at);
    if d == "" then length
    else
      var w := OctalValue(d) % U32;
      if w <= INT_MAX then w else w - U32
  }

  lemma {:induction false} DigitsStored(s: string, at: nat, d: string)
    requires AllOctal(d) && at + |d| < |s| && s[at..at + |d|] == d && !IsOctal(s[at + |d|])
    ensures DigitsAt(s, at) == d
    decreases |d|
  {
    if d != "" {
      assert s[at] == d[0] && IsOctal(d[0]);
      assert s[at + 1..at + 1 + |d[1..]|] == d[1..];
      DigitsStored(s, at + 1, d[1..]);
    }
  }

  // ----- Archives -----

  /** A member of an archive: what the header says, the header block itself, the content and
      what fills its last block up. */
  datatype Entry = Entry(name: string, digits: string, header: string, content: string, fill: string)

  function Blocks(n: nat): nat {
    (n + (BLOCK - 1)) / BLOCK
  }

  /** The name is terminated unless it takes the whole field. */
  predicate NameIs(header: string, name: string) {
    && 1 <= |name| <= NAME_LEN && '\0' !in name && |header| == BLOCK
    && header[..|name|] == name && (|name| < NAME_LEN ==> header[|name|] == '\0')
  }

  /** The size field holds octal digits and a terminator. */
  predicate SizeIs(header: string, digits: string) {
    && 1 <= |digits| < SIZE_LEN && AllOctal(digits) && |header| == BLOCK
    && header[SIZE_AT..SIZE_AT + |digits|] == digits && header[SIZE_AT + |digits|] in {' ', '\0'}
  }

  predicate WellFormed(e: Entry) {
    && NameIs(e.header, e.name) && SizeIs(e.header, e.digits) && OctalValue(e.digits) == |e.content|
    && |e.content| + |e.fill| == BLOCK * Blocks(|e.content|)
  }

  function Zeros(n: nat): (z: string)
    ensures |z| == n && forall i | 0 <= i < n :: z[i] == '\0'
  {
    seq(n, _ => '\0')
  }

  function Image(e: Entry): string {
    e.header + e.content + e.fill
  }

  /** The members one after the other, a zero block, and whatever follows it. */
  function Archive(es: seq<Entry>, tail: string): string {
    if es == [] then Zeros(BLOCK) + tail else Image(es[0]) + Archive(es[1..], tail)
  }

  // ----- A writer of such archives -----

  function Octal(n: nat, width: nat): (d: string)
    ensures |d| == width && AllOctal(d)
  {
    if width == 0 then "" else Octal(n / 8, width - 1) + ["01234567"[n % 8]]
  }

  function Pow8(k: nat): nat {
    if k == 0 then 1 else 8 * Pow8(k - 1)
  }

  lemma {:induction false} OctalRoundTrip(n: nat, width: nat)
    requires n < Pow8(width)
    ensures OctalValue(Octal(n, width)) == n
  {
    if width > 0 {
      OctalRoundTrip(n / 8, width - 1);
      var d := Octal(n, width);
      assert d[..width - 1] == Octal(n / 8, width - 1);
      assert "01234567"[n % 8] as int - '0' as int == n % 8;
    }
  }

  /** A header as tar writes it: 24 bytes of mode and owners after the name, 11 digits for the
      size, and 376 more bytes. */
  function Write(name: string, owners: string, rest: string, content: string): Entry
    requires |name| <= NAME_LEN
  {
    var digits := Octal(|content|, SIZE_LEN - 1);
    Entry(name, digits, name + Zeros(NAME_LEN - |name|) + owners + digits + "\0" + rest, content,
          Zeros((BLOCK * Blocks(|content|) - |content|)))
  }

  /** What a writer makes of any file with a name that fits is well-formed. */
  lemma WriteIsWellFormed(name: string, owners: string, rest: string, content: string)
    requires 1 <= |name| <= NAME_LEN && '\0' !in name && |owners| == 24 && |rest| == 376
    requires |content| < Pow8(SIZE_LEN - 1)
    ensures WellFormed(Write(name, owners, rest, content))
    ensures Write(name, owners, rest, content).name == name && Write(name, owners, rest, content).content == content
  {
    hide Octal, OctalValue, Pow8;
    OctalRoundTrip(|content|, SIZE_LEN - 1);
  }

  // ----- What the walker reads at a header -----

  lemma {:induction false} CStringAtLeast(s: string, at: nat, n: nat)
    requires at + n <= |s| && '\0' !in s[at..at + n]
    ensures |Ksyms.CString(s, at)| >= n
    decreases n
  {
    if n > 0 {
      assert s[at] in s[at..at + n];
      assert s[at + 1..at + 1 + (n - 1)] == s[at..at + n][1..];
      CStringAtLeast(s, at + 1, n - 1);
    }
  }

  /** Compared with a name of at most 99 characters, the name field reads as the name. */
  lemma NameRead(a: string, pos: nat, header: string, entry: string, name: string)
    requires pos + BLOCK <= |a| && a[pos..pos + BLOCK] == header && NameIs(header, entry) && |name| < NAME_LEN
    ensures a[pos] != '\0'
    ensures Ksyms.CString(a, pos) == name <==> entry == name
  {
    hide Ksyms.CString;
    assert a[pos..pos + |entry|] == header[..|entry|] == entry;
    assert a[pos] == entry[0];
    if |entry| < NAME_LEN {
      assert a[pos + |entry|] == header[|entry|];
      Ksyms.CStringStored(a, pos, entry);
    } else {
      CStringAtLeast(a, pos, NAME_LEN);
    }
  }

  lemma SliceOfSlice(a: string, pos: nat, n: nat, i: nat, j: nat)
    requires pos + n <= |a| && i <= j <= n
    ensures a[pos..pos + n][i..j] == a[pos + i..pos + j]
  {
    var b, c := a[pos..pos + n], a[pos + i..pos + j];
    assert forall k | i <= k < j :: b[k] == a[pos + k] == c[k - i];
    assert forall k | 0 <= k < j - i :: b[i..j][k] == b[i + k] == c[k];
  }

  lemma SizeRead(a: string, pos: nat, header: string, digits: string, length: int)
    requires pos + BLOCK <= |a| && a[pos..pos + BLOCK] == header && SizeIs(header, digits)
    requires OctalValue(digits) <= INT_MAX
    ensures ScanOctal(a, pos + SIZE_AT, length) == OctalValue(digits)
  {
    hide OctalValue;
    var at := pos + SIZE_AT;
    SliceOfSlice(a, pos, BLOCK, SIZE_AT, SIZE_AT + |digits|);
    assert a[at + |digits|] == header[SIZE_AT + |digits|];
    DigitsStored(a, at, digits);
  }

  /** The first member with a name. */
  function First(es: seq<Entry>, name: string): (k: Option<nat>)
    ensures k.Some? ==> k.value < |es| && es[k.value].name == name
    ensures forall i | 0 <= i < (if k.Some? then k.value else |es|) :: es[i].name != name
  {
    if es == [] then None
    else if es[0].name == name then Some(0)
    else
      match First(es[1..], name)
      case None => None
      case Some(k) => Some(k + 1)
  }

  /** Where the archive goes on after its first member. */
  lemma Skip(a: string, pos: nat, e: Entry, more: string)
    requires WellFormed(e) && pos <= |a| && a[pos..] == Image(e) + more
    ensures pos + BLOCK + BLOCK * Blocks(|e.content|) <= |a|
    ensures a[pos..pos + BLOCK] == e.header
    ensures a[pos + BLOCK..pos + BLOCK + |e.content|] == e.content
    ensures a[pos + BLOCK + BLOCK * Blocks(|e.content|)..] == more
  {
    hide Blocks, NameIs, OctalValue;
    var rest := a[pos..];
    var padded := BLOCK * Blocks(|e.content|);
    assert |rest| == BLOCK + padded + |more|;
    assert a[pos..pos + BLOCK] == rest[..BLOCK];
    assert a[pos + BLOCK..pos + BLOCK + |e.content|] == rest[BLOCK..BLOCK + |e.content|];
    assert a[pos + BLOCK + padded..] == rest[BLOCK + padded..];
  }

  lemma {:induction false} ArchiveEnds(es: seq<Entry>, tail: string)
    requires forall e | e in es :: WellFormed(e)
    ensures |Archive(es, tail)| >= BLOCK
    ensures Archive(es, tail)[0] != '\0' <==> es != []
  {
    hide OctalValue, Blocks;
    if es != [] {
      ArchiveEnds(es[1..], tail);
      assert WellFormed(es[0]);
      assert es[0].header[0] == es[0].header[..|es[0].name|][0] == es[0].name[0];
    }
  }

  /** Everything the walker reads at the header of the first member of the rest of the archive. */
  lemma AtHeader(a: string, pos: nat, es: seq<Entry>, tail: string, name: string, length: int)
    requires es != [] && (forall e | e in es :: WellFormed(e)) && |a| <= INT_MAX && |name| < NAME_LEN
    requires pos <= |a| && a[pos..] == Archive(es, tail)
    ensures var e := es[0];
            var next := pos + BLOCK + BLOCK * Blocks(|e.content|);
            && ScanOctal(a, pos + SIZE_AT, length) == |e.content|
            && (Ksyms.CString(a, pos) == name <==> e.name == name)
            && pos < next <= |a| && pos + BLOCK + |e.content| <= |a|
            && a[next..] == Archive(es[1..], tail)
            && a[pos + BLOCK..pos + BLOCK + |e.content|] == e.content
  {
    var e := es[0];
    assert WellFormed(e);
    hide Archive, Image, OctalValue, ScanOctal, Ksyms.CString;
    assert a[pos..] == Image(e) + Archive(es[1..], tail) by { ArchiveFirst(es, tail); }
    Skip(a, pos, e, Archive(es[1..], tail));
    NameRead(a, pos, e.header, e.name, name);
    SizeRead(a, pos, e.header, e.digits, length);
  }

  lemma ArchiveFirst(es: seq<Entry>, tail: string)
    requires es != []
    ensures Archive(es, tail) == Image(es[0]) + Archive(es[1..], tail)
  {
  }

  /** `tar_file_start`: where the content of the first member with a name starts, and its length. */
  method TarFileStart(a: string, name: string, ghost es: seq<Entry>, ghost tail: string)
    returns (start: Option<nat>, length: int)
    requires a == Archive(es, tail) && |a| <= INT_MAX && |name| < NAME_LEN
    requires forall e | e in es :: WellFormed(e)
    ensures start.None? <==> First(es, name).None?
    ensures start.Some? ==>
              var content := es[First(es, name).value].content;
              && length == |content| && start.value + |content| <= |a|
              && a[start.value..start.value + |content|] == content
  {
    hide WellFormed, Image, Archive, ScanOctal, Ksyms.CString;
    length := 0;
    var pos := 0;
    ghost var i := 0;
    assert a[0..] == a && es[0..] == es;
    ArchiveEnds(es, tail);
    while a[pos] != '\0'
      invariant i <= |es| && pos < |a| && a[pos..] == Archive(es[i..], tail)
      invariant a[pos] != '\0' <==> i < |es|
      invariant forall k | 0 <= k < i :: es[k].name != name
      decreases |a| - pos
    {
      AtHeader(a, pos, es[i..], tail, name, length);
      length := ScanOctal(a, pos + SIZE_AT, length);
      if Ksyms.CString(a, pos) == name {
        return Some(pos + BLOCK), length;
      }
      pos := pos + BLOCK * (1 + (length + 511) / 512);
      assert es[i..][1..] == es[i + 1..];
      i := i + 1;
      ArchiveEnds(es[i..], tail);
    }
    start := None;
  }
}
