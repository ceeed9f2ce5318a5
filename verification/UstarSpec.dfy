/** The ustar archive header: its layout, its checksum and its octal fields. */
module UstarSpec {
  import opened Sectors
  import opened CStrings
  import opened Options

  // ----- Names -----

  const SLASH: byte := 47
  const DOT: byte := 46
  const DOT_NAME: Name := [46]
  const DOT_DOT: Name := [46, 46]

  /** Names that start with "/", "./" or "../". */
  predicate Antisocial(s: Name) {
    || (|s| >= 1 && s[0] == SLASH)
    || (|s| >= 2 && s[0] == DOT && s[1] == SLASH)
    || (|s| >= 3 && s[0] == DOT && s[1] == DOT && s[2] == SLASH)
  }

  /** What follows the first slash. */
  function AfterSlash(s: Name): (t: Name)
    requires SLASH in s
    ensures |t| < |s| && s[|s| - |t|..] == t
  {
    if s[0] == SLASH then s[1..] else AfterSlash(s[1..])
  }

  function DropPrefixes(s: Name): (t: Name)
    ensures !Antisocial(t) && |t| <= |s| && s[|s| - |t|..] == t
    decreases |s|
  {
    if Antisocial(s) then
      assert SLASH in s by { SlashIn(s); }
      DropPrefixes(AfterSlash(s))
    else s
  }

  lemma SlashIn(s: Name)
    requires Antisocial(s)
    ensures SLASH in s
  {
    if s[0] != SLASH && s[1] != SLASH {
      assert s[2] in s;
    }
  }

  /** `strip_antisocial_prefixes` */
  function Strip(s: Name): Name {
    var t := DropPrefixes(s);
    if t == [] || t == DOT_DOT then DOT_NAME else t
  }

  /** The stripped name is a suffix of the name or ".", it does not lead out of a directory, and is kept. */
  lemma StripIsSafe(s: Name)
    ensures var t := Strip(s);
            && !Antisocial(t) && t != [] && t != DOT_DOT && Strip(t) == t
            && (t == DOT_NAME || (|t| <= |s| && t == s[|s| - |t|..]))
            && (0 !in s ==> 0 !in t)
  {
    hide Antisocial, DropPrefixes;
    DotIsFine();
    DropsNothing(Strip(s));
    SuffixOf(s, DropPrefixes(s));
  }

  /** "/", "./" and "../" */
  predicate IsPiece(p: Name) {
    p == [47] || p == [46, 47] || p == [46, 46, 47]
  }

  ghost predicate ArePieces(ps: seq<Name>) {
    forall i :: 0 <= i < |ps| ==> IsPiece(ps[i])
  }

  function Joined(ps: seq<Name>, t: Name): Name {
    if ps == [] then t else ps[0] + Joined(ps[1..], t)
  }

  /** No prefix is left to strip. */
  ghost predicate Clean(t: Name) {
    forall p :: IsPiece(p) ==> !(p <= t)
  }

  /** Exactly the leading pieces are dropped: however a name is made of pieces and a clean rest, the rest is left. */
  lemma {:induction false} StripDropsPieces(ps: seq<Name>, t: Name)
    requires ArePieces(ps) && Clean(t)
    ensures Strip(Joined(ps, t)) == if t == [] || t == [46, 46] then [46] else t
  {
    PiecesDropped(ps, t);
  }

  lemma {:induction false} PiecesDropped(ps: seq<Name>, t: Name)
    requires ArePieces(ps) && Clean(t)
    ensures DropPrefixes(Joined(ps, t)) == t
  {
    if ps == [] {
      CleanIs(t);
    } else {
      PiecesDropped(ps[1..], t);
      PieceDropped(ps[0], Joined(ps[1..], t));
    }
  }

  lemma CleanIs(t: Name)
    ensures Clean(t) <==> !Antisocial(t)
  {
    if Antisocial(t) {
      var p := if t[0] == SLASH then [47] else if t[1] == SLASH then [46, 47] else [46, 46, 47];
      assert IsPiece(p) && p <= t;
    }
  }

  lemma PieceDropped(p: Name, s: Name)
    requires IsPiece(p)
    ensures DropPrefixes(p + s) == DropPrefixes(s)
  {
    Starts(p, s);
    AfterPiece(p, s);
    hide *;
    DropStep(p + s);
  }

  lemma Starts(p: Name, s: Name)
    requires IsPiece(p)
    ensures Antisocial(p + s)
  {
  }

  lemma DropStep(s: Name)
    requires Antisocial(s)
    ensures SLASH in s && DropPrefixes(s) == DropPrefixes(AfterSlash(s))
  {
    SlashIn(s);
  }

  lemma AfterPiece(p: Name, s: Name)
    requires IsPiece(p)
    ensures SLASH in p + s && AfterSlash(p + s) == s
  {
    var u := [SLASH] + s;
    assert u[0] == SLASH && u[1..] == s;
    SlashLater(u);
    SlashLater([DOT] + u);
    hide AfterSlash;
    assert p + s == if |p| == 1 then u else if |p| == 2 then [DOT] + u else [DOT] + ([DOT] + u);
  }

  lemma SlashLater(s: Name)
    requires SLASH in s
    ensures SLASH in [DOT] + s && AfterSlash([DOT] + s) == AfterSlash(s)
  {
    var u := [DOT] + s;
    assert u[1..] == s;
    forall i | 0 <= i < |s| ensures u[i + 1] == s[i] {
    }
  }

  /** Every name is made of pieces and a clean rest. */
  lemma {:induction false} HasPieces(s: Name) returns (ps: seq<Name>, t: Name)
    ensures ArePieces(ps) && Clean(t) && Joined(ps, t) == s
    decreases |s|
  {
    CleanIs(s);
    if !Antisocial(s) {
      ps, t := [], s;
    } else {
      var n := if s[0] == SLASH then 1 else if s[1] == SLASH then 2 else 3;
      ps, t := HasPieces(s[n..]);
      assert IsPiece(s[..n]) && s[..n] + s[n..] == s;
      ps := [s[..n]] + ps;
    }
  }

  lemma SuffixOf(s: Name, t: Name)
    requires |t| <= |s| && s[|s| - |t|..] == t
    ensures 0 in t ==> 0 in s
  {
  }

  lemma DotIsFine()
    ensures !Antisocial(DOT_NAME)
  {
  }

  lemma DropsNothing(t: Name)
    ensures !Antisocial(t) ==> DropPrefixes(t) == t
  {
  }

  // ----- Octal fields -----

  const ZERO: byte := 48

  /** Octal digits, most significant first, without leading zeros. */
  function Digits(v: nat): (d: seq<byte>)
    ensures forall i :: 0 <= i < |d| ==> ZERO <= d[i] < ZERO + 8
  {
    if v == 0 then [] else Digits(v / 8) + [ZERO + v % 8]
  }

  function Zeros(n: nat): (z: seq<byte>)
    ensures |z| == n && forall i :: 0 <= i < n ==> z[i] == ZERO
  {
    seq(n, _ => ZERO)
  }

  /** The conversion "%0<width>o". */
  function Octal(v: nat, width: nat): seq<byte> {
    var d := if v == 0 then [ZERO] else Digits(v);
    (if |d| < width then Zeros(width - |d|) else []) + d
  }

  const ULONG_MAX := 0xFFFF_FFFF

  /** `parse_octal_field` from offset `ofs` on, with `value` so far. */
  function ParseFrom(s: seq<byte>, ofs: nat, value: nat): Option<nat>
    requires ofs <= |s|
    decreases |s| - ofs
  {
    if ofs == |s| then None
    else if ZERO <= s[ofs] < ZERO + 8 then
      if value > ULONG_MAX / 8 then None else ParseFrom(s, ofs + 1, s[ofs] - ZERO + value * 8)
    else if s[ofs] == 32 || s[ofs] == 0 then
      if ofs > 0 then Some(value) else None
    else None
  }

  /** The value of a string of octal digits. */
  function Value(d: seq<byte>): nat
    requires forall i :: 0 <= i < |d| ==> ZERO <= d[i] < ZERO + 8
  {
    if d == [] then 0 else Value(d[..|d| - 1]) * 8 + (d[|d| - 1] - ZERO)
  }

  lemma {:induction false} DigitsValue(v: nat)
    ensures Value(Digits(v)) == v
  {
    if v > 0 {
      DigitsValue(v / 8);
      assert Digits(v)[..|Digits(v)| - 1] == Digits(v / 8);
    }
  }

  lemma {:induction false} ZerosValue(n: nat, d: seq<byte>)
    requires forall i :: 0 <= i < |d| ==> ZERO <= d[i] < ZERO + 8
    ensures Value(Zeros(n) + d) == Value(d)
    decreases n + |d|
  {
    var z := Zeros(n) + d;
    if d != [] {
      ZerosValue(n, d[..|d| - 1]);
      assert z[..|z| - 1] == Zeros(n) + d[..|d| - 1];
    } else if n > 0 {
      ZerosValue(n - 1, []);
      assert z[..|z| - 1] == Zeros(n - 1) + [];
    }
  }

  /** How many digits a value takes. */
  lemma {:induction false} DigitsLength(v: nat, n: nat)
    requires v < Eights(n)
    ensures |Digits(v)| <= n
  {
    if v > 0 && n > 0 {
      DigitsLength(v / 8, n - 1);
    }
  }

  function Eights(n: nat): (p: nat)
    ensures p > 0
  {
    if n == 0 then 1 else 8 * Eights(n - 1)
  }

  lemma OctalIs(v: nat, width: nat)
    requires v < Eights(width) && width > 0
    ensures var f := Octal(v, width);
            |f| == width && (forall i :: 0 <= i < |f| ==> ZERO <= f[i] < ZERO + 8) && Value(f) == v
  {
    DigitsLength(v, width);
    DigitsValue(v);
    var d := if v == 0 then [ZERO] else Digits(v);
    ZerosValue(if |d| < width then width - |d| else 0, d);
    assert v == 0 ==> Value([ZERO]) == 0;
  }

  /** Reading the digits of `f` from `ofs` on. */
  lemma {:induction false} ParseDigits(f: seq<byte>, end: byte, rest: seq<byte>, ofs: nat)
    requires (forall i :: 0 <= i < |f| ==> ZERO <= f[i] < ZERO + 8) && (end == 0 || end == 32)
    requires ofs <= |f| && Value(f[..ofs]) <= ULONG_MAX
    ensures ParseFrom(f + [end] + rest, ofs, Value(f[..ofs])) ==
              if f != [] && Value(f) <= ULONG_MAX then Some(Value(f)) else None
    decreases |f| - ofs
  {
    var s := f + [end] + rest;
    if ofs == |f| {
      assert f[..ofs] == f && s[ofs] == end;
    } else {
      assert f[..ofs + 1][..ofs] == f[..ofs] && s[ofs] == f[ofs];
      PrefixValue(f, ofs + 1);
      if Value(f[..ofs]) <= ULONG_MAX / 8 {
        ParseDigits(f, end, rest, ofs + 1);
      }
    }
  }

  lemma {:induction false} PrefixValue(f: seq<byte>, n: nat)
    requires (forall i :: 0 <= i < |f| ==> ZERO <= f[i] < ZERO + 8) && n <= |f|
    ensures Value(f[..n]) <= Value(f)
    decreases |f| - n
  {
    if n < |f| {
      PrefixValue(f, n + 1);
      assert f[..n + 1][..n] == f[..n];
    } else {
      assert f[..n] == f;
    }
  }

  /** A field of octal digits that ends in a null or a blank has their value, if there are digits and it is a `long`. */
  lemma ParsesOctal(f: seq<byte>, end: byte, rest: seq<byte>)
    requires (forall i :: 0 <= i < |f| ==> 48 <= f[i] < 56) && (end == 0 || end == 32)
    ensures ParseFrom(f + [end] + rest, 0, 0) ==
              if f != [] && Value(f) <= 0xFFFF_FFFF then Some(Value(f)) else None
  {
    assert f[..0] == [];
    ParseDigits(f, end, rest, 0);
  }

  /** And no other field has a value. */
  lemma {:induction false} ParsesOnlyOctal(s: seq<byte>, ofs: nat, value: nat) returns (n: nat)
    requires ofs <= |s| && ParseFrom(s, ofs, value).Some? && forall i :: 0 <= i < ofs ==> 48 <= s[i] < 56
    ensures 0 < n < |s| && (s[n] == 0 || s[n] == 32) && forall i :: 0 <= i < n ==> 48 <= s[i] < 56
    decreases |s| - ofs
  {
    if 48 <= s[ofs] < 56 {
      n := ParsesOnlyOctal(s, ofs + 1, s[ofs] - 48 + value * 8);
    } else {
      n := ofs;
    }
  }

  /** Printing and parsing are inverse within the field's width. */
  lemma OctalRoundTrip(v: nat, width: nat, rest: seq<byte>)
    requires v < Eights(width) && width > 0 && v <= ULONG_MAX
    ensures ParseFrom(Octal(v, width) + [0] + rest, 0, 0) == Some(v)
  {
    OctalIs(v, width);
    ParsesOctal(Octal(v, width), 0, rest);
  }

  // ----- The checksum -----

  const CHKSUM := 148
  const CHKSUM_END := 156

  /** The sum of the first `n` octets, the checksum field taken as spaces. */
  function Sum(h: Data, n: nat): (s: nat)
    requires n <= SECTOR_SIZE
    ensures s <= 255 * n
  {
    if n == 0 then 0
    else Sum(h, n - 1) + if CHKSUM <= n - 1 < CHKSUM_END then 32 else h[n - 1]
  }

  function Checksum(h: Data): nat {
    Sum(h, SECTOR_SIZE)
  }

  /** The checksum does not depend on its own field. */
  lemma {:induction false} SumIgnoresField(h: Data, h': Data, n: nat)
    requires n <= SECTOR_SIZE && forall i :: 0 <= i < n && !(CHKSUM <= i < CHKSUM_END) ==> h[i] == h'[i]
    ensures Sum(h, n) == Sum(h', n)
  {
    if n > 0 {
      SumIgnoresField(h, h', n - 1);
    }
  }

  function Total(s: seq<byte>): nat {
    if s == [] then 0 else Total(s[..|s| - 1]) + s[|s| - 1]
  }

  /** The checksum is the sum of all bytes of the header, with its own field taken to be eight blanks. */
  lemma ChecksumIsTotal(h: Data)
    ensures Checksum(h) == Total(Patch(h, [32, 32, 32, 32, 32, 32, 32, 32], 148))
  {
    var g := Patch(h, [32, 32, 32, 32, 32, 32, 32, 32], 148);
    SumIsTotal(h, g, SECTOR_SIZE);
    assert g[..SECTOR_SIZE] == g;
  }

  lemma {:induction false} SumIsTotal(h: Data, g: Data, n: nat)
    requires n <= SECTOR_SIZE && forall i :: 0 <= i < SECTOR_SIZE ==> g[i] == if 148 <= i < 156 then 32 else h[i]
    ensures Sum(h, n) == Total(g[..n])
  {
    if n > 0 {
      SumIsTotal(h, g, n - 1);
      assert g[..n][..n - 1] == g[..n - 1];
    }
  }

  lemma {:induction false} SumChanges(h: Data, i: nat, b: byte, n: nat)
    requires n <= SECTOR_SIZE && i < SECTOR_SIZE && !(CHKSUM <= i < CHKSUM_END)
    ensures Sum(h[i := b], n) == Sum(h, n) + if i < n then b - h[i] else 0
  {
    if n > 0 {
      SumChanges(h, i, b, n - 1);
    }
  }

  // ----- The header -----

  const REGULAR: byte := 48
  const DIRECTORY: byte := 53
  const MAGIC: seq<byte> := [117, 115, 116, 97, 114, 0]
  const NO_ID: seq<byte> := [48, 48, 48, 48, 48, 48, 48, 0]
  const ROOT: seq<byte> := [114, 111, 111, 116, 0]
  const MTIME := 1136102400
  const NAME_MAX := 99

  /** The permissions: 0644 for files, 0755 for directories. */
  function Mode(kind: byte): nat {
    if kind == REGULAR then 420 else 493
  }

  /** An `int` printed as unsigned. */
  function Unsigned(size: int): nat {
    size % 0x1_0000_0000
  }

  function Field(v: nat, width: nat): seq<byte> {
    Octal(v, width) + [0]
  }

  function Blank(): (d: Data)
    ensures IsZero(d)
  {
    seq(SECTOR_SIZE, _ => 0)
  }

  /** The fields up to the modification time. */
  function Front(name: Name, kind: byte, size: int): Data
    requires |name| <= NAME_MAX && |Field(Mode(kind), 7)| == 8
    requires |Field(Unsigned(size), 11)| == 12 && |Field(MTIME, 11)| == 12
  {
    var h1 := Patch(Blank(), name + [0], 0);
    var h2 := Patch(h1, Field(Mode(kind), 7), 100);
    var h3 := Patch(h2, NO_ID, 108);
    var h4 := Patch(h3, NO_ID, 116);
    var h5 := Patch(h4, Field(Unsigned(size), 11), 124);
    Patch(h5, Field(MTIME, 11), 136)
  }

  /** All fields but the checksum. */
  function Unsummed(front: Data, kind: byte): Data {
    var h1 := Patch(front, [kind], 156);
    var h2 := Patch(h1, MAGIC, 257);
    var h3 := Patch(h2, [ZERO, ZERO], 263);
    var h4 := Patch(h3, ROOT, 297);
    Patch(h4, ROOT, 265)
  }

  function Summed(h: Data): Data
    requires |Field(Checksum(h), 7)| == 8
  {
    Patch(h, Field(Checksum(h), 7), CHKSUM)
  }

  /** The widths suffice for everything that is printed. */
  lemma Widths(kind: byte, size: int, h: Data)
    ensures |Field(Mode(kind), 7)| == 8 && |Field(Unsigned(size), 11)| == 12 && |Field(MTIME, 11)| == 12
    ensures |Field(Checksum(h), 7)| == 8
  {
    assert Eights(7) == 2097152 && Eights(11) == 8589934592 by { Powers(); }
    hide Eights, Octal, Sum;
    OctalIs(Mode(kind), 7);
    OctalIs(Unsigned(size), 11);
    OctalIs(MTIME, 11);
    OctalIs(Checksum(h), 7);
  }

  lemma Powers()
    ensures Eights(7) == 2097152 && Eights(11) == 8589934592
  {
    assert Eights(3) == 512;
    assert Eights(7) == 4096 * Eights(3);
    assert Eights(11) == 4096 * Eights(7);
  }

  /** `ustar_make_header`, for a name that is not too long. */
  function Made(name: Name, kind: byte, size: int): Data
    requires |name| <= NAME_MAX
  {
    Widths(kind, size, Blank());
    var u := Unsummed(Front(name, kind, size), kind);
    Widths(kind, size, u);
    Summed(u)
  }

  // ----- Parsing -----

  datatype Reason =
    | NotUstar | BadVersion | CorruptChecksum | ChecksumMismatch | NameTooLong | UnknownType | CorruptSize | TooLarge

  datatype Parsed = EndOfArchive | Entry(name: Name, kind: byte, size: nat) | Bad(why: Reason)

  const INT_MAX := 0x7FFF_FFFF

  /** `ustar_parse_header` */
  function Parse(h: Data): Parsed {
    if IsZero(h) then EndOfArchive
    else if h[257..263] != MAGIC then Bad(NotUstar)
    else if h[263] != ZERO || h[264] != ZERO then Bad(BadVersion)
    else
      match ParseFrom(h[CHKSUM..CHKSUM_END], 0, 0)
      case None => Bad(CorruptChecksum)
      case Some(sum) =>
        if sum != Checksum(h) then Bad(ChecksumMismatch)
        else if h[99] != 0 || h[345] != 0 then Bad(NameTooLong)
        else if h[156] != REGULAR && h[156] != DIRECTORY then Bad(UnknownType)
        else if h[156] == REGULAR then
          match ParseFrom(h[124..136], 0, 0)
          case None => Bad(CorruptSize)
          case Some(size) => if size > INT_MAX then Bad(TooLarge) else Entry(Strip(CStr(h[..100])), h[156], size)
        else Entry(Strip(CStr(h[..100])), h[156], 0)
  }

  /** Where the fields of a made header are. */
  lemma FrontFields(name: Name, kind: byte, size: int)
    requires |name| <= NAME_MAX && |Field(Mode(kind), 7)| == 8
    requires |Field(Unsigned(size), 11)| == 12 && |Field(MTIME, 11)| == 12
    ensures var h := Front(name, kind, size);
            && h[..|name| + 1] == name + [0] && (forall i :: |name| <= i < 100 ==> h[i] == 0)
            && h[124..136] == Field(Unsigned(size), 11) && forall i :: 148 <= i < SECTOR_SIZE ==> h[i] == 0
  {
    hide Field, Unsigned, Mode;
    var h := Front(name, kind, size);
    assert forall i :: 0 <= i < |name| ==> h[i] == name[i];
    assert forall i :: 124 <= i < 136 ==> h[i] == Field(Unsigned(size), 11)[i - 124];
  }

  lemma UnsummedFields(f: Data, kind: byte)
    requires forall i :: 148 <= i < SECTOR_SIZE ==> f[i] == 0
    ensures var u := Unsummed(f, kind);
            && (forall i :: 0 <= i < 148 ==> u[i] == f[i]) && u[156] == kind && u[257..263] == MAGIC
            && u[263] == u[264] == ZERO && u[345] == 0
  {
    var u := Unsummed(f, kind);
    assert forall i :: 257 <= i < 263 ==> u[i] == MAGIC[i - 257];
  }

  lemma SummedFields(u: Data)
    requires |Field(Checksum(u), 7)| == 8
    ensures var h := Summed(u);
            && h[CHKSUM..CHKSUM_END] == Field(Checksum(u), 7) && Checksum(h) == Checksum(u)
            && forall i :: 0 <= i < SECTOR_SIZE && !(CHKSUM <= i < CHKSUM_END) ==> h[i] == u[i]
  {
    var h := Summed(u);
    SumIgnoresField(h, u, SECTOR_SIZE);
    hide Sum, Field;
  }

  /** Everything the parser looks at in a header. */
  ghost predicate IsHeader(h: Data, name: Name, kind: byte, size: int) {
    && |name| <= NAME_MAX && h[..100] == name + [0] + seq(99 - |name|, _ => 0) && h[99] == 0 && h[345] == 0
    && h[156] == kind && h[257..263] == MAGIC && h[263] == ZERO && h[264] == ZERO
    && h[124..136] == Field(Unsigned(size), 11)
    && h[CHKSUM..CHKSUM_END] == Field(Checksum(h), 7)
  }

  lemma MadeFields(name: Name, kind: byte, size: int)
    requires |name| <= NAME_MAX
    ensures IsHeader(Made(name, kind, size), name, kind, size)
  {
    hide Front, Unsummed, Summed, Sum, Field, IsHeader;
    Widths(kind, size, Blank());
    var f := Front(name, kind, size);
    FrontFields(name, kind, size);
    var u := Unsummed(f, kind);
    UnsummedFields(f, kind);
    Widths(kind, size, u);
    SummedFields(u);
    FieldsOf(f, u, Made(name, kind, size), name, kind, size);
  }

  lemma FieldsOf(f: Data, u: Data, h: Data, name: Name, kind: byte, size: int)
    requires |name| <= NAME_MAX && f[..|name| + 1] == name + [0] && (forall i :: |name| <= i < 100 ==> f[i] == 0)
    requires f[124..136] == Field(Unsigned(size), 11) && forall i :: 0 <= i < 148 ==> u[i] == f[i]
    requires u[156] == kind && u[257..263] == MAGIC && u[263] == u[264] == ZERO && u[345] == 0
    requires h[CHKSUM..CHKSUM_END] == Field(Checksum(u), 7) && Checksum(h) == Checksum(u)
    requires forall i :: 0 <= i < SECTOR_SIZE && !(CHKSUM <= i < CHKSUM_END) ==> h[i] == u[i]
    ensures IsHeader(h, name, kind, size)
  {
    hide Field, Sum, Unsigned;
    assert h[..100] == name + [0] + seq(99 - |name|, _ => 0) by {
      assert forall i :: 0 <= i < |name| ==> h[i] == f[..|name| + 1][i];
    }
    assert h[124..136] == f[124..136];
    assert h[257..263] == u[257..263];
  }

  lemma ParseHeader(h: Data, name: Name, kind: byte, size: int)
    requires IsHeader(h, name, kind, size) && 0 !in name && (kind == REGULAR || kind == DIRECTORY)
    requires -0x8000_0000 <= size <= INT_MAX
    ensures Parse(h) ==
            if kind == DIRECTORY then Entry(Strip(name), kind, 0)
            else if size >= 0 then Entry(Strip(name), kind, size)
            else Bad(TooLarge)
  {
    hide Eights, Octal, Sum, Strip, CStr, ParseFrom, Checksum, Field;
    CStrOf(name, seq(99 - |name|, _ => 0));
    ChecksumSmall(h);
    FieldRoundTrip(Checksum(h), 7);
    FieldRoundTrip(Unsigned(size), 11);
    assert h[156] != 0;
  }

  lemma ChecksumSmall(h: Data)
    ensures Checksum(h) <= 255 * 512
  {
  }

  lemma FieldRoundTrip(v: nat, width: nat)
    requires (width == 7 || width == 11) && v <= ULONG_MAX && (width == 7 ==> v <= 255 * 512)
    ensures ParseFrom(Field(v, width), 0, 0) == Some(v)
  {
    assert v < Eights(width) by { Powers(); }
    hide Eights, Octal, ParseFrom;
    OctalRoundTrip(v, width, []);
    assert Field(v, width) == Octal(v, width) + [0] + [];
  }

  /**
   * Parsing a made header gives back the name, the type, and for regular files the size, exactly when
   * the size is not negative.
   */
  lemma ParseMade(fileName: Name, kind: byte, size: int)
    requires 0 !in fileName && |Strip(fileName)| <= NAME_MAX && (kind == REGULAR || kind == DIRECTORY)
    requires -0x8000_0000 <= size <= INT_MAX
    ensures Parse(Made(Strip(fileName), kind, size)) ==
            if kind == DIRECTORY then Entry(Strip(fileName), kind, 0)
            else if size >= 0 then Entry(Strip(fileName), kind, size)
            else Bad(TooLarge)
  {
    hide IsHeader, Made, Parse, Strip;
    StripIsSafe(fileName);
    MadeFields(Strip(fileName), kind, size);
    ParseHeader(Made(Strip(fileName), kind, size), Strip(fileName), kind, size);
  }

  /** The header is laid out as the format says, byte by byte. */
  lemma MadeLayout(name: Name, kind: byte, size: int)
    requires |name| <= NAME_MAX && (kind == REGULAR || kind == DIRECTORY)
    ensures var h := Made(name, kind, size);
            && h[..100] == name + [0] + seq(99 - |name|, _ => 0)
            && h[100..108] == (if kind == 48 then [48, 48, 48, 48, 54, 52, 52, 0] else [48, 48, 48, 48, 55, 53, 53, 0])
            && h[108..116] == h[116..124] == [48, 48, 48, 48, 48, 48, 48, 0]
            && ParseFrom(h[124..136], 0, 0) == Some(size % 0x1_0000_0000)
            && ParseFrom(h[136..148], 0, 0) == Some(1136102400)
            && ParseFrom(h[148..156], 0, 0) == Some(Checksum(h))
            && h[156] == kind && (forall i :: 157 <= i < 257 ==> h[i] == 0)
            && h[257..265] == [117, 115, 116, 97, 114, 0, 48, 48]
            && h[265..269] == h[297..301] == [114, 111, 111, 116]
            && forall i :: 269 <= i < 512 && !(297 <= i < 301) ==> h[i] == 0
  {
    hide Front, Unsummed, Summed, Sum, Field, ParseFrom;
    MadeFields(name, kind, size);
    Widths(kind, size, Blank());
    var f := Front(name, kind, size);
    FrontFields(name, kind, size);
    FrontLayout(name, kind, size);
    var u := Unsummed(f, kind);
    UnsummedFields(f, kind);
    UnsummedLayout(f, kind);
    Widths(kind, size, u);
    SummedFields(u);
    var h := Made(name, kind, size);
    ModeField(kind);
    ChecksumSmall(h);
    FieldRoundTrip(Checksum(h), 7);
    FieldRoundTrip(Unsigned(size), 11);
    FieldRoundTrip(MTIME, 11);
    assert h[100..108] == f[100..108] && h[108..116] == f[108..116] && h[116..124] == f[116..124];
    assert h[136..148] == f[136..148] && h[265..269] == u[265..269] && h[297..301] == u[297..301];
  }

  lemma ModeField(kind: byte)
    requires kind == REGULAR || kind == DIRECTORY
    ensures Field(Mode(kind), 7) ==
              if kind == 48 then [48, 48, 48, 48, 54, 52, 52, 0] else [48, 48, 48, 48, 55, 53, 53, 0]
  {
    ModeDigits();
    hide Digits, Zeros;
    assert Zeros(4) == [48, 48, 48, 48];
  }

  lemma ModeDigits()
    ensures Digits(420) == [54, 52, 52] && Digits(493) == [55, 53, 53]
  {
    NextDigit(6);
    NextDigit(7);
    NextDigit(52);
    NextDigit(61);
    NextDigit(420);
    NextDigit(493);
    assert Digits(0) == [];
    hide Digits;
  }

  lemma NextDigit(v: nat)
    requires v > 0
    ensures Digits(v) == Digits(v / 8) + [ZERO + v % 8]
  {
  }

  lemma FrontLayout(name: Name, kind: byte, size: int)
    requires |name| <= NAME_MAX && |Field(Mode(kind), 7)| == 8
    requires |Field(Unsigned(size), 11)| == 12 && |Field(MTIME, 11)| == 12
    ensures var h := Front(name, kind, size);
            && h[100..108] == Field(Mode(kind), 7) && h[136..148] == Field(MTIME, 11)
            && h[108..116] == h[116..124] == NO_ID
  {
    hide Field, Unsigned, Mode;
    var h := Front(name, kind, size);
    assert forall i :: 100 <= i < 108 ==> h[i] == Field(Mode(kind), 7)[i - 100];
    assert forall i :: 136 <= i < 148 ==> h[i] == Field(MTIME, 11)[i - 136];
    assert forall i :: 108 <= i < 116 ==> h[i] == NO_ID[i - 108];
    assert forall i :: 116 <= i < 124 ==> h[i] == NO_ID[i - 116];
  }

  lemma UnsummedLayout(f: Data, kind: byte)
    requires forall i :: 148 <= i < SECTOR_SIZE ==> f[i] == 0
    ensures var u := Unsummed(f, kind);
            && (forall i :: 157 <= i < 257 ==> u[i] == 0) && u[265..269] == u[297..301] == [114, 111, 111, 116]
            && forall i :: 269 <= i < 512 && !(297 <= i < 301) ==> u[i] == 0
  {
    var u := Unsummed(f, kind);
    assert forall i :: 265 <= i < 269 ==> u[i] == ROOT[i - 265];
    assert forall i :: 297 <= i < 301 ==> u[i] == ROOT[i - 297];
  }

  /** Changing any one byte outside the checksum makes a header that is refused. */
  lemma OneByteChanged(h: Data, i: nat, b: byte)
    requires Parse(h).Entry? && i < SECTOR_SIZE && !(CHKSUM <= i < CHKSUM_END) && b != h[i]
    ensures Parse(h[i := b]).Bad?
  {
    hide Sum, ParseFrom, Strip, CStr;
    var g: Data := h[i := b];
    SumChanges(h, i, b, SECTOR_SIZE);
    assert g[CHKSUM..CHKSUM_END] == h[CHKSUM..CHKSUM_END];
    assert h[263] == ZERO && h[264] == ZERO;
    assert !IsZero(g) by { assert g[263] == ZERO || g[264] == ZERO; }
  }

  /** A header is accepted exactly if it is a ustar header of version 00 with the right checksum, a name that ends in
      its field and has no prefix, and the type of a directory or of a file whose size is an `int`. */
  lemma Accepted(h: Data)
    ensures Parse(h).Entry? <==>
              && h[257..265] == [117, 115, 116, 97, 114, 0, 48, 48]
              && ParseFrom(h[148..156], 0, 0) == Some(Total(Patch(h, [32, 32, 32, 32, 32, 32, 32, 32], 148)))
              && h[99] == 0 && h[345] == 0
              && var size := ParseFrom(h[124..136], 0, 0);
                 h[156] == 53 || (h[156] == 48 && size.Some? && size.value < 0x8000_0000)
  {
    ChecksumIsTotal(h);
    hide Sum, ParseFrom, Strip, CStr, Total, Patch;
    var m := h[257..265];
    assert m == h[257..263] + [h[263], h[264]] && m[..6] == h[257..263] && m[6] == h[263] && m[7] == h[264];
    assert m[6] == 48 ==> !IsZero(h);
  }

  lemma {:induction false} CStrShort(bs: seq<byte>, k: nat)
    requires k < |bs| && bs[k] == 0
    ensures |CStr(bs)| <= k
  {
    if bs[0] != 0 {
      CStrShort(bs[1..], k - 1);
    }
  }

  /** Whatever is parsed can be made into a header again, which parses to the same. */
  lemma ParsedAgain(h: Data)
    requires Parse(h).Entry?
    ensures var e := Parse(h);
            && |e.name| <= 99 && Parse(Made(e.name, e.kind, e.size)) == e
  {
    hide Parse, Made, Strip, Antisocial;
    var e := Parse(h);
    var name := ParsedFrom(h);
    StripIsSafe(name);
    StripShort(name);
    ParseMade(e.name, e.kind, e.size);
  }

  lemma ParsedFrom(h: Data) returns (name: Name)
    requires Parse(h).Entry?
    ensures var e := Parse(h);
            && e.name == Strip(name) && |name| <= 99 && 0 !in name
            && if e.kind == DIRECTORY then e.size == 0 else e.kind == REGULAR && e.size <= INT_MAX
  {
    name := CStr(h[..100]);
    assert h[..100][99] == 0;
    CStrShort(h[..100], 99);
    hide Sum, ParseFrom, Strip, CStr;
  }

  lemma StripShort(s: Name)
    ensures |Strip(s)| <= |s| || Strip(s) == [46]
  {
    StripIsSafe(s);
    hide Strip, Antisocial;
  }
}
