/** Derivation paths of hierarchical deterministic wallets: parsing what a user wrote, printing the canonical form. */
module DerivationPaths {
  datatype PathError = EmptyPath | AmbiguousPath | InvalidComponent | OutOfRange | OutOfHardenedRange

  datatype Result<+T> = Ok(value: T) | Err(error: PathError)

  datatype Maybe = Nothing | Just(value: int)

  const MAX32: nat := 0xFFFF_FFFF
  const HARDENED: nat := 0x8000_0000

  type Path = seq<nat>

  /** Every component fits 32 bits. */
  predicate Is32Bit(path: Path) { forall i :: 0 <= i < |path| ==> path[i] <= MAX32 }

  /** The path that relative paths are appended to: m/44'/60'/0'/0. */
  const ROOT: Path := [HARDENED + 44, HARDENED + 60, HARDENED, 0]

  // ----- strings -----

  /** White space as in Unicode's White_Space property. */
  predicate IsSpace(c: char) {
    || '\t' <= c <= '\r' || c == ' ' || c == '\U{85}' || c == '\U{A0}' || c == '\U{1680}'
    || '\U{2000}' <= c <= '\U{200A}'
    || c == '\U{2028}' || c == '\U{2029}' || c == '\U{202F}' || c == '\U{205F}' || c == '\U{3000}'
  }

  function TrimLeft(s: string): string { if s != "" && IsSpace(s[0]) then TrimLeft(s[1..]) else s }

  function TrimRight(s: string): string {
    if s != "" && IsSpace(s[|s| - 1]) then TrimRight(s[..|s| - 1]) else s
  }

  function Trim(s: string): string { TrimRight(TrimLeft(s)) }

  function Split(s: string): (parts: seq<string>)
    ensures parts != []
  {
    if s == "" then [""]
    else var rest := Split(s[1..]); if s[0] == '/' then [""] + rest else [[s[0]] + rest[0]] + rest[1..]
  }

  function Join(parts: seq<string>): string
    requires parts != []
  {
    if |parts| == 1 then parts[0] else Join(parts[..|parts| - 1]) + "/" + parts[|parts| - 1]
  }

  ghost predicate Unslashed(parts: seq<string>) { forall i :: 0 <= i < |parts| ==> '/' !in parts[i] }

  lemma {:induction false} SplitOne(s: string)
    requires '/' !in s
    ensures Split(s) == [s]
  {
    if s != "" {
      SplitOne(s[1..]);
      assert [s[0]] + s[1..] == s;
    }
  }

  /** A slash-free tail is the last part. */
  lemma {:induction false} SplitLast(s: string, p: string)
    requires '/' !in p
    ensures Split(s + "/" + p) == Split(s) + [p]
  {
    var whole := s + "/" + p;
    if s == "" {
      assert whole[1..] == p;
      SplitOne(p);
    } else {
      assert whole[1..] == s[1..] + "/" + p;
      SplitLast(s[1..], p);
    }
  }

  /** Splitting undoes joining. */
  lemma {:induction false} SplitJoin(parts: seq<string>)
    requires parts != [] && Unslashed(parts)
    ensures Split(Join(parts)) == parts
  {
    var n := |parts| - 1;
    if n == 0 {
      SplitOne(parts[0]);
    } else {
      SplitJoin(parts[..n]);
      SplitLast(Join(parts[..n]), parts[n]);
    }
  }

  // ----- numbers -----

  function DigitValue(c: char): nat {
    if '0' <= c <= '9' then c as int - '0' as int
    else if 'a' <= c <= 'z' then c as int - 'a' as int + 10
    else if 'A' <= c <= 'Z' then c as int - 'A' as int + 10
    else 99
  }

  /** The digits of a number in some base, with single underscores after digits. `prev` tells whether a digit or a
      prefix came just before, `any` whether there was a digit yet. */
  function Digits(s: string, base: nat, prev: bool, any: bool, acc: nat): Maybe {
    if s == "" then (if prev && any then Just(acc) else Nothing)
    else if s[0] == '_' then (if prev then Digits(s[1..], base, false, any, acc) else Nothing)
    else if DigitValue(s[0]) < base then Digits(s[1..], base, true, true, acc * base + DigitValue(s[0]))
    else Nothing
  }

  /** A number with its base given by a prefix: 0b, 0o, 0x, or 0 for octal. */
  function Unsigned(s: string): Maybe {
    if |s| >= 2 && s[0] == '0' then
      if s[1] in "bB" then Digits(s[2..], 2, true, false, 0)
      else if s[1] in "oO" then Digits(s[2..], 8, true, false, 0)
      else if s[1] in "xX" then Digits(s[2..], 16, true, false, 0)
      else Digits(s[1..], 8, true, false, 0)
    else Digits(s, 10, false, false, 0)
  }

  /** What big.Int reads from a string in base 0. */
  function Number(s: string): Maybe {
    if s != "" && s[0] == '+' then Unsigned(s[1..])
    else if s != "" && s[0] == '-' then
      var m := Unsigned(s[1..]); if m.Just? then Just(-m.value) else Nothing
    else Unsigned(s)
  }

  function DigitChar(d: nat): (c: char)
    requires d < 10
    ensures '0' <= c <= '9' && DigitValue(c) == d
  {
    ('0' as int + d) as char
  }

  function Decimal(n: nat): string { if n < 10 then [DigitChar(n)] else Decimal(n / 10) + [DigitChar(n % 10)] }

  lemma {:induction false} DecimalShape(n: nat)
    ensures Decimal(n) != "" && (forall i :: 0 <= i < |Decimal(n)| ==> '0' <= Decimal(n)[i] <= '9')
    ensures Decimal(n)[0] == '0' ==> n == 0
  {
    if n >= 10 { DecimalShape(n / 10); }
  }

  lemma {:induction false} DigitsOfDecimal(n: nat, rest: string, prev: bool, any: bool)
    ensures Digits(Decimal(n) + rest, 10, prev, any, 0) == Digits(rest, 10, true, true, n)
  {
    if n < 10 {
      assert (Decimal(n) + rest)[1..] == rest;
    } else {
      var tail := [DigitChar(n % 10)] + rest;
      assert Decimal(n) + rest == Decimal(n / 10) + tail;
      DigitsOfDecimal(n / 10, tail, prev, any);
      assert tail[1..] == rest;
    }
  }

  /** Reading a printed number gives the number: no prefix is mistaken for another base. */
  lemma NumberOfDecimal(n: nat)
    ensures Number(Decimal(n)) == Just(n)
  {
    DecimalShape(n);
    DigitsOfDecimal(n, "", false, false);
    assert Decimal(n) + "" == Decimal(n);
    assert n == 0 ==> |Decimal(n)| == 1;
  }

  /** A number in any base up to sixteen. */
  function Numeral(n: nat, base: nat): string
    requires 2 <= base <= 16
    decreases n
  {
    if n < base then [HexChar(n)] else Numeral(n / base, base) + [HexChar(n % base)]
  }

  function HexChar(d: nat): (c: char)
    requires d < 16
    ensures DigitValue(c) == d && c != '_'
  {
    if d < 10 then ('0' as int + d) as char else ('a' as int + d - 10) as char
  }

  lemma DigitFirst(d: nat, rest: string, base: nat, prev: bool, any: bool, acc: nat)
    requires d < base <= 16
    ensures Digits([HexChar(d)] + rest, base, prev, any, acc) == Digits(rest, base, true, true, acc * base + d)
  {
    assert ([HexChar(d)] + rest)[1..] == rest;
  }

  lemma Divide(n: nat, base: nat)
    requires 2 <= base <= n
    ensures n / base < n && n / base * base + n % base == n
  {
  }

  lemma {:induction false} DigitsOfNumeral(n: nat, base: nat, rest: string, prev: bool, any: bool)
    requires 2 <= base <= 16
    ensures Digits(Numeral(n, base) + rest, base, prev, any, 0) == Digits(rest, base, true, true, n)
    decreases n
  {
    hide Digits;
    if n < base {
      DigitFirst(n, rest, base, prev, any, 0);
    } else {
      Divide(n, base);
      var q, d := n / base, n % base;
      assert Numeral(n, base) + rest == Numeral(q, base) + ([HexChar(d)] + rest);
      DigitsOfNumeral(q, base, [HexChar(d)] + rest, prev, any);
      DigitFirst(d, rest, base, true, true, q);
    }
  }

  /** A prefix selects the base: binary, octal in both spellings, or hexadecimal. */
  lemma NumberOfNumeral(n: nat)
    ensures Number("0b" + Numeral(n, 2)) == Number("0B" + Numeral(n, 2)) == Just(n)
    ensures Number("0o" + Numeral(n, 8)) == Number("0O" + Numeral(n, 8)) == Number("0" + Numeral(n, 8)) == Just(n)
    ensures Number("0x" + Numeral(n, 16)) == Number("0X" + Numeral(n, 16)) == Just(n)
  {
    hide Number, Numeral;
    Prefixed(n, 2, 'b', 'B');
    Prefixed(n, 8, 'o', 'O');
    Prefixed(n, 16, 'x', 'X');
    OldOctal(n);
    assert "0b" == ['0', 'b'] && "0B" == ['0', 'B'] && "0o" == ['0', 'o'] && "0O" == ['0', 'O'];
    assert "0x" == ['0', 'x'] && "0X" == ['0', 'X'];
  }

  lemma OldOctal(n: nat)
    ensures Number("0" + Numeral(n, 8)) == Just(n)
  {
    OctalShape(n);
    DigitsOfNumeral(n, 8, "", true, false);
    assert Numeral(n, 8) + "" == Numeral(n, 8) == ("0" + Numeral(n, 8))[1..];
  }

  lemma Prefixed(n: nat, base: nat, lower: char, upper: char)
    requires (base, lower, upper) in {(2, 'b', 'B'), (8, 'o', 'O'), (16, 'x', 'X')}
    ensures Number(['0', lower] + Numeral(n, base)) == Number(['0', upper] + Numeral(n, base)) == Just(n)
  {
    DigitsOfNumeral(n, base, "", true, false);
    assert Numeral(n, base) + "" == Numeral(n, base);
    assert (['0', lower] + Numeral(n, base))[2..] == Numeral(n, base) == (['0', upper] + Numeral(n, base))[2..];
  }

  lemma {:induction false} OctalShape(n: nat)
    ensures Numeral(n, 8) != "" && '0' <= Numeral(n, 8)[0] <= '9'
    decreases n
  {
    if n >= 8 { OctalShape(n / 8); }
  }

  // ----- components -----

  /** One component: trimmed, a trailing apostrophe for a hardened one, a number within what is left of 32 bits. */
  function Component(text: string): (r: Result<nat>)
    ensures r.Ok? ==> r.value <= MAX32
  {
    var t := Trim(text);
    var hard := t != "" && t[|t| - 1] == '\'';
    var offset := if hard then HARDENED else 0;
    var number := Number(if hard then Trim(t[..|t| - 1]) else t);
    if number.Nothing? then Err(InvalidComponent)
    else if number.value < 0 || number.value > MAX32 - offset then Err(if hard then OutOfHardenedRange else OutOfRange)
    else Ok(offset + number.value)
  }

  /** All components in order, or the first error. */
  function Components(parts: seq<string>): (r: Result<Path>)
    ensures r.Ok? ==> |r.value| == |parts| && Is32Bit(r.value)
  {
    if parts == [] then Ok([])
    else
      var front := Components(parts[..|parts| - 1]);
      if front.Err? then front
      else
        var last := Component(parts[|parts| - 1]);
        if last.Err? then Err(last.error) else Ok(front.value + [last.value])
  }

  lemma {:induction false} FirstErrorStays(parts: seq<string>, k: nat)
    requires k <= |parts| && Components(parts[..k]).Err?
    ensures Components(parts) == Components(parts[..k])
  {
    if k < |parts| {
      var front := parts[..|parts| - 1];
      assert front[..k] == parts[..k];
      FirstErrorStays(front, k);
    } else {
      assert parts[..k] == parts;
    }
  }

  /** What a path string means. */
  function Meaning(text: string): (r: Result<Path>)
    ensures r.Ok? ==> r.value != [] && Is32Bit(r.value)
  {
    var parts := Split(text);
    var first := Trim(parts[0]);
    if first == "" then Err(AmbiguousPath)
    else if first == "m" then (if |parts| == 1 then Err(EmptyPath) else Components(parts[1..]))
    else var r := Components(parts); if r.Err? then r else Ok(ROOT + r.value)
  }

  method ParseDerivationPath(path: string) returns (r: Result<Path>)
    ensures r == Meaning(path)
  {
    hide Component, Split, Trim;
    var result: Path := [];
    var components := Split(path);
    if |components| == 0 { return Err(EmptyPath); }
    if Trim(components[0]) == "" { return Err(AmbiguousPath); }
    if Trim(components[0]) == "m" {
      components := components[1..];
    } else {
      result := result + ROOT;
      assert result == ROOT;
    }
    if |components| == 0 { return Err(EmptyPath); }
    ghost var base := result;
    for i := 0 to |components|
      invariant Components(components[..i]).Ok? && result == base + Components(components[..i]).value
    {
      assert components[..i + 1][..i] == components[..i];
      var value := Component(components[i]);
      if value.Err? {
        FirstErrorStays(components, i + 1);
        return Err(value.error);
      }
      result := result + [value.value];
    }
    assert components[..|components|] == components;
    assert base == [] ==> result == Components(components).value;
    r := Ok(result);
  }

  // ----- printing -----

  function Piece(c: nat): string { if c >= HARDENED then Decimal(c - HARDENED) + "'" else Decimal(c) }

  function Pieces(path: Path): (parts: seq<string>)
    ensures |parts| == |path| && forall i :: 0 <= i < |path| ==> parts[i] == Piece(path[i])
  {
    if path == [] then [] else Pieces(path[..|path| - 1]) + [Piece(path[|path| - 1])]
  }

  /** The canonical form. */
  function Printed(path: Path): string { Join(["m"] + Pieces(path)) }

  method ToString(path: Path) returns (result: string)
    ensures result == Printed(path)
  {
    hide Decimal;
    result := "m";
    for i := 0 to |path|
      invariant result == Printed(path[..i])
    {
      var component, hardened := path[i], false;
      if component >= HARDENED { component, hardened := component - HARDENED, true; }
      var piece := Decimal(component);
      if hardened { piece := piece + "'"; }
      PrintedMore(path[..i], path[i]);
      assert path[..i + 1] == path[..i] + [path[i]];
      result := result + "/" + piece;
    }
    assert path[..|path|] == path;
  }

  lemma PrintedMore(path: Path, c: nat)
    ensures Printed(path + [c]) == Printed(path) + "/" + Piece(c)
  {
    hide Piece;
    assert (path + [c])[..|path|] == path;
    var parts := ["m"] + Pieces(path);
    assert ["m"] + Pieces(path + [c]) == parts + [Piece(c)];
    assert (parts + [Piece(c)])[..|parts|] == parts;
  }

  /** A string that neither starts nor ends in white space is its own trim. */
  lemma Trimmed(s: string)
    requires s != "" ==> !IsSpace(s[0]) && !IsSpace(s[|s| - 1])
    ensures Trim(s) == s
  {
  }

  lemma ComponentOfPiece(c: nat)
    requires c <= MAX32
    ensures Component(Piece(c)) == Ok(c) && '/' !in Piece(c)
  {
    var n := if c >= HARDENED then c - HARDENED else c;
    DecimalShape(n);
    NumberOfDecimal(n);
    Trimmed(Piece(c));
    Trimmed(Decimal(n));
    if c >= HARDENED { assert Piece(c)[..|Piece(c)| - 1] == Decimal(n); }
  }

  lemma {:induction false} ComponentsOfPieces(path: Path)
    requires Is32Bit(path)
    ensures Components(Pieces(path)) == Ok(path) && Unslashed(Pieces(path))
  {
    hide Component, Piece;
    if path != [] {
      var front := path[..|path| - 1];
      ComponentsOfPieces(front);
      ComponentOfPiece(path[|path| - 1]);
      assert Pieces(path)[..|path| - 1] == Pieces(front);
      assert front + [path[|path| - 1]] == path;
    }
  }

  /** Parsing the printed form of a path of 32-bit components gives the path back, exactly when the path is not
      empty. */
  lemma RoundTrip(path: Path)
    requires Is32Bit(path)
    ensures Meaning(Printed(path)) == Ok(path) <==> path != []
    ensures path == [] ==> Meaning(Printed(path)) == Err(EmptyPath)
  {
    hide Components, Pieces, Join, Split;
    ComponentsOfPieces(path);
    var parts := ["m"] + Pieces(path);
    SplitJoin(parts);
    Trimmed("m");
    assert parts[1..] == Pieces(path);
  }

  /** Printing normalises: whatever spelling a path was parsed from, the printed form means the same. */
  lemma Normalises(text: string)
    requires Meaning(text).Ok?
    ensures Meaning(Printed(Meaning(text).value)) == Meaning(text)
  {
    RoundTrip(Meaning(text).value);
  }

  /** Without the leading "m" the same components are taken relative to the root. */
  lemma RelativeRoundTrip(path: Path)
    requires Is32Bit(path) && path != []
    ensures Meaning(Join(Pieces(path))) == Ok(ROOT + path)
  {
    hide Components, Join, Split;
    ComponentsOfPieces(path);
    SplitJoin(Pieces(path));
    PieceStarts(path[0]);
  }

  lemma PieceStarts(c: nat)
    ensures Trim(Piece(c)) != "" && Trim(Piece(c)) != "m"
  {
    DecimalShape(if c >= HARDENED then c - HARDENED else c);
    Trimmed(Piece(c));
  }

  // ----- white space -----

  ghost predicate Blank(s: string) { forall i :: 0 <= i < |s| ==> IsSpace(s[i]) }

  lemma {:induction false} TrimLeftPad(pad: string, s: string)
    requires Blank(pad)
    ensures TrimLeft(pad + s) == TrimLeft(s)
  {
    if pad == "" {
      assert pad + s == s;
    } else {
      assert (pad + s)[1..] == pad[1..] + s;
      TrimLeftPad(pad[1..], s);
    }
  }

  lemma {:induction false} TrimRightPad(s: string, pad: string)
    requires Blank(pad)
    ensures TrimRight(s + pad) == TrimRight(s)
  {
    if pad == "" {
      assert s + pad == s;
    } else {
      assert (s + pad)[..|s + pad| - 1] == s + pad[..|pad| - 1];
      TrimRightPad(s, pad[..|pad| - 1]);
    }
  }

  lemma {:induction false} TrimLeftKeepsTail(s: string, pad: string)
    requires Blank(pad)
    ensures TrimLeft(s + pad) == if Blank(s) then "" else TrimLeft(s) + pad
  {
    if s == "" {
      TrimLeftPad(pad, "");
      assert pad + "" == s + pad == pad;
    } else {
      assert (s + pad)[1..] == s[1..] + pad;
      if IsSpace(s[0]) {
        TrimLeftKeepsTail(s[1..], pad);
        assert Blank(s) <==> Blank(s[1..]);
      }
    }
  }

  /** Padding on either side does not change the trim. */
  lemma TrimPad(left: string, s: string, right: string)
    requires Blank(left) && Blank(right)
    ensures Trim(left + s + right) == Trim(s)
  {
    assert left + s + right == left + (s + right);
    TrimLeftPad(left, s + right);
    TrimLeftKeepsTail(s, right);
    if Blank(s) {
      TrimLeftPad(s, "");
      assert s + "" == s;
    } else {
      TrimRightPad(TrimLeft(s), right);
    }
  }

  /** White space around components is ignored: strings whose parts have the same trims mean the same. */
  lemma SpacesIgnored(a: seq<string>, b: seq<string>)
    requires a != [] && |a| == |b| && Unslashed(a) && Unslashed(b)
    requires forall i :: 0 <= i < |a| ==> Trim(a[i]) == Trim(b[i])
    ensures Meaning(Join(a)) == Meaning(Join(b))
  {
    hide Trim, Join, Split;
    SplitJoin(a);
    SplitJoin(b);
    assert Trim(a[0]) == Trim(b[0]);
    SameComponents(a, b);
    SameComponents(a[1..], b[1..]);
  }

  lemma {:induction false} SameComponents(a: seq<string>, b: seq<string>)
    requires |a| == |b| && forall i :: 0 <= i < |a| ==> Trim(a[i]) == Trim(b[i])
    ensures Components(a) == Components(b)
  {
    hide Trim, Number;
    if a != [] {
      var n := |a| - 1;
      assert Trim(a[n]) == Trim(b[n]);
      SameComponents(a[..n], b[..n]);
    }
  }
}
