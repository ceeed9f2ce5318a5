/** Writing and parsing ustar headers in place. */
module Ustar {
  import opened Options
  import opened Sectors
  import opened CStrings
  import opened UstarSpec

  /** `strip_antisocial_prefixes`, moving a pointer into the name. */
  method StripAntisocialPrefixes(fileName: Name) returns (r: Name)
    ensures r == Strip(fileName)
  {
    var p := fileName;
    while Antisocial(p)
      invariant DropPrefixes(p) == DropPrefixes(fileName)
      decreases |p|
    {
      SlashIn(p);
      p := FindSlash(p);
    }
    r := if p == [] || p == DOT_DOT then DOT_NAME else p;
  }

  /** `strchr (p, '/') + 1` */
  method FindSlash(p: Name) returns (r: Name)
    requires SLASH in p
    ensures r == AfterSlash(p)
  {
    r := p;
    while r[0] != SLASH
      invariant SLASH in r && AfterSlash(r) == AfterSlash(p)
      decreases |r|
    {
      r := r[1..];
    }
    r := r[1..];
  }

  /** `calculate_chksum` */
  method CalculateChksum(header: array<byte>) returns (sum: nat)
    requires header.Length == SECTOR_SIZE
    ensures sum == Checksum(header[..])
  {
    sum := 0;
    var i := 0;
    while i < SECTOR_SIZE
      invariant i <= SECTOR_SIZE && sum == Sum(header[..], i)
    {
      var inField := CHKSUM <= i < CHKSUM_END;
      sum := sum + if inField then 32 else header[i];
      i := i + 1;
    }
  }

  /** `format_integer` for "%0<width>o": the digits, then zeros for the width. */
  method FormatOctal(v: nat, width: nat) returns (out: seq<byte>)
    ensures out == Octal(v, width)
  {
    var buf := AccumulateDigits(v);
    if |buf| < 1 {
      buf := [ZERO];
    }
    out := PadZeros(buf, if width > |buf| then width - |buf| else 0);
  }

  /** The digits come out in reverse, and are output in reverse. */
  method AccumulateDigits(v: nat) returns (buf: seq<byte>)
    ensures buf == Digits(v) && (buf == [] <==> v == 0)
  {
    var value := v;
    buf := [];
    while value > 0
      invariant Digits(v) == Digits(value) + buf
    {
      var digit: byte := ZERO + value % 8;
      assert Digits(value / 8) + [digit] + buf == Digits(value / 8) + ([digit] + buf);
      buf := [digit] + buf;
      value := value / 8;
    }
  }

  /** `output_dup` */
  method PadZeros(buf: seq<byte>, padCnt: nat) returns (out: seq<byte>)
    ensures out == Zeros(padCnt) + buf
  {
    out := buf;
    var n := 0;
    while n < padCnt
      invariant n <= padCnt && out == Zeros(n) + buf
    {
      assert [ZERO] + (Zeros(n) + buf) == Zeros(n + 1) + buf;
      out := [ZERO] + out;
      n := n + 1;
    }
  }

  /** `memcpy`, the last step of `strlcpy` and `snprintf`. */
  method Copy(header: array<byte>, bytes: seq<byte>, ofs: nat)
    requires header.Length == SECTOR_SIZE && ofs + |bytes| <= SECTOR_SIZE
    modifies header
    ensures header[..] == Patch(old(header[..]), bytes, ofs)
  {
    var i := 0;
    while i < |bytes|
      invariant i <= |bytes|
      invariant forall k :: 0 <= k < SECTOR_SIZE ==>
                  header[k] == if ofs <= k < ofs + i then bytes[k - ofs] else old(header[k])
    {
      header[ofs + i] := bytes[i];
      i := i + 1;
    }
  }

  method PrintOctal(header: array<byte>, v: nat, width: nat, ofs: nat)
    requires header.Length == SECTOR_SIZE && ofs + |Field(v, width)| <= SECTOR_SIZE
    modifies header
    ensures header[..] == Patch(old(header[..]), Field(v, width), ofs)
  {
    var f := FormatOctal(v, width);
    Copy(header, f + [0], ofs);
  }

  /** `ustar_make_header`; the type is asserted to be one of the two, and the size is an `int`. */
  method MakeHeader(fileName: Name, kind: byte, size: int, header: array<byte>) returns (ok: bool)
    requires header.Length == SECTOR_SIZE && (kind == REGULAR || kind == DIRECTORY) && 0 !in fileName
    modifies header
    ensures ok <==> |Strip(fileName)| <= NAME_MAX
    ensures header[..] == if ok then Made(Strip(fileName), kind, size) else old(header[..])
  {
    var name := StripAntisocialPrefixes(fileName);
    if |name| > NAME_MAX {
      return false;
    }
    hide Patch, Field, Strip, Sum;
    Widths(kind, size, Blank());
    ghost var f := Front(name, kind, size);
    FillFront(name, kind, size, header);
    Copy(header, [kind], 156);
    Copy(header, MAGIC, 257);
    Copy(header, [ZERO, ZERO], 263);
    Copy(header, ROOT, 297);
    Copy(header, ROOT, 265);
    ghost var u := header[..];
    assert u == Unsummed(f, kind);
    Widths(kind, size, u);
    var sum := CalculateChksum(header);
    PrintOctal(header, sum, 7, CHKSUM);
    ok := true;
  }

  method FillFront(name: Name, kind: byte, size: int, header: array<byte>)
    requires header.Length == SECTOR_SIZE && |name| <= NAME_MAX && |Field(Mode(kind), 7)| == 8
    requires |Field(Unsigned(size), 11)| == 12 && |Field(MTIME, 11)| == 12
    modifies header
    ensures header[..] == Front(name, kind, size)
  {
    hide Patch, Field;
    Clear(header);
    Copy(header, name + [0], 0);
    PrintOctal(header, Mode(kind), 7, 100);
    Copy(header, NO_ID, 108);
    Copy(header, NO_ID, 116);
    PrintOctal(header, Unsigned(size), 11, 124);
    PrintOctal(header, MTIME, 11, 136);
  }

  /** `memset` */
  method Clear(header: array<byte>)
    requires header.Length == SECTOR_SIZE
    modifies header
    ensures header[..] == Blank()
  {
    var i := 0;
    while i < SECTOR_SIZE
      invariant i <= SECTOR_SIZE && forall k :: 0 <= k < i ==> header[k] == 0
    {
      header[i] := 0;
      i := i + 1;
    }
    BlankIs(header[..]);
  }

  lemma BlankIs(d: Data)
    requires IsZero(d)
    ensures d == Blank()
  {
  }

  /** `parse_octal_field` */
  method ParseOctalField(s: seq<byte>) returns (r: Option<nat>)
    ensures r == ParseFrom(s, 0, 0)
  {
    var value: nat, ofs := 0, 0;
    while ofs < |s|
      invariant ofs <= |s| && ParseFrom(s, 0, 0) == ParseFrom(s, ofs, value)
    {
      var c := s[ofs];
      if ZERO <= c < ZERO + 8 {
        if value > ULONG_MAX / 8 {
          return None;
        }
        value := c - ZERO + value * 8;
      } else if c == 32 || c == 0 {
        return if ofs > 0 then Some(value) else None;
      } else {
        return None;
      }
      ofs := ofs + 1;
    }
    return None;
  }

  /** `is_all_zeros` */
  method IsAllZeros(header: array<byte>) returns (b: bool)
    requires header.Length == SECTOR_SIZE
    ensures b == IsZero(header[..])
  {
    var i := 0;
    while i < SECTOR_SIZE
      invariant i <= SECTOR_SIZE && forall k :: 0 <= k < i ==> header[k] == 0
    {
      if header[i] != 0 {
        return false;
      }
      i := i + 1;
    }
    return true;
  }

  /** The string in the name field. */
  method ReadName(header: array<byte>) returns (name: Name)
    requires header.Length == SECTOR_SIZE
    ensures name == CStr(header[..100])
  {
    var s := header[..100];
    var i := 0;
    name := [];
    while i < |s| && s[i] != 0
      invariant i <= |s| && CStr(s) == name + CStr(s[i..])
    {
      assert name + ([s[i]] + CStr(s[i + 1..])) == name + [s[i]] + CStr(s[i + 1..]);
      assert s[i..][1..] == s[i + 1..];
      name := name + [s[i]];
      i := i + 1;
    }
  }

  /** `ustar_parse_header` */
  method ParseHeaderBytes(header: array<byte>) returns (r: Parsed)
    requires header.Length == SECTOR_SIZE
    ensures r == Parse(header[..])
  {
    hide ParseFrom, Sum, Strip, CStr;
    var h: Data := header[..];
    var zero := IsAllZeros(header);
    if zero {
      return EndOfArchive;
    }
    if h[257..263] != MAGIC {
      return Bad(NotUstar);
    }
    if h[263] != ZERO || h[264] != ZERO {
      return Bad(BadVersion);
    }
    var stored := ParseOctalField(h[CHKSUM..CHKSUM_END]);
    if stored.None? {
      return Bad(CorruptChecksum);
    }
    var sum := CalculateChksum(header);
    if stored.value != sum {
      return Bad(ChecksumMismatch);
    }
    if h[99] != 0 || h[345] != 0 {
      return Bad(NameTooLong);
    }
    if h[156] != REGULAR && h[156] != DIRECTORY {
      return Bad(UnknownType);
    }
    var size := 0;
    if h[156] == REGULAR {
      var field := ParseOctalField(h[124..136]);
      if field.None? {
        return Bad(CorruptSize);
      }
      if field.value > INT_MAX {
        return Bad(TooLarge);
      }
      size := field.value;
    }
    var name := ReadName(header);
    var stripped := StripAntisocialPrefixes(name);
    return Entry(stripped, h[156], size);
  }
}
