/**
 * `IPLocate.isIP` (IPLocate.java) on the text of an address, and the address
 * that text stands for. The two library calls it relies on are stated here
 * as this model reads them:
 *
 *  - `ip.split("\\.")` cuts the text at every '.', keeps empty pieces at the
 *    front and in the middle, drops the empty pieces at the end, and gives the
 *    text itself when it holds no '.' at all. So "1.2.3.4." and "1.2.3.4.."
 *    split into four pieces, while ".1.2.3" and "1..2.3" do not split into four
 *    numbers.
 *  - `Integer.parseInt(part)` accepts one optional leading '+' or '-' followed by
 *    at least one ASCII digit, leading zeros included ("007", "-0", "+12"), and
 *    rejects values outside the 32-bit `int` range.
 */
module DottedQuad {
  import opened Outcomes
  import opened Addresses

  // ---------------------------------------------------------------------------
  // String.split("\\.")
  // ---------------------------------------------------------------------------

  /** The text cut at every '.', every empty piece kept. */
  function Pieces(s: string): (ps: seq<string>)
    ensures |ps| >= 1
    ensures forall i :: 0 <= i < |ps| ==> '.' !in ps[i]
    decreases |s|
  {
    if s == [] then [""]
    else
      var rest := Pieces(s[1..]);
      if s[0] == '.' then [""] + rest
      else [[s[0]] + rest[0]] + rest[1..]
  }

  /** The pieces with the empty ones at the end removed. */
  function DropTrailingEmpty(ps: seq<string>): (r: seq<string>)
    ensures r <= ps
    ensures r == [] || r[|r| - 1] != ""
    decreases |ps|
  {
    if ps != [] && ps[|ps| - 1] == "" then DropTrailingEmpty(ps[..|ps| - 1]) else ps
  }

  /** `s.split("\\.")`. */
  function SplitDots(s: string): (parts: seq<string>)
    ensures forall i :: 0 <= i < |parts| ==> '.' !in parts[i]
    ensures '.' in s ==> parts == [] || parts[|parts| - 1] != ""
  {
    if '.' !in s then [s] else DropTrailingEmpty(Pieces(s))
  }

  // ---------------------------------------------------------------------------
  // Integer.parseInt
  // ---------------------------------------------------------------------------

  predicate IsDigit(c: char)
  {
    '0' <= c <= '9'
  }

  /** A non-empty string of ASCII digits. */
  predicate AllDigits(s: string)
  {
    s != [] && forall i :: 0 <= i < |s| ==> IsDigit(s[i])
  }

  function DigitValue(c: char): nat
    requires IsDigit(c)
  {
    (c as int) - ('0' as int)
  }

  /** The decimal value of a non-empty string of ASCII digits. */
  function DigitsValue(s: string): nat
    requires AllDigits(s)
    decreases |s|
  {
    var last := DigitValue(s[|s| - 1]);
    if |s| == 1 then last else DigitsValue(s[..|s| - 1]) * 10 + last
  }

  const IntMin: int := -0x8000_0000
  const IntMax: int := 0x7FFF_FFFF

  /**
   * `Integer.parseInt(s)`: `None` where it throws `NumberFormatException`.
   * A value is returned exactly when the text is an optional sign and digits,
   * and the value lies in the `int` range.
   */
  function ParseInt(s: string): (r: Option<int>)
    ensures r.Some? ==> IntMin <= r.value <= IntMax
    ensures r.Some? ==> AllDigits(s) || (|s| >= 2 && (s[0] == '+' || s[0] == '-') && AllDigits(s[1..]))
  {
    if s == [] then None
    else
      var neg := s[0] == '-';
      var digits := if s[0] == '-' || s[0] == '+' then s[1..] else s;
      if !AllDigits(digits) then None
      else
        var magnitude: int := DigitsValue(digits);
        var v := if neg then -magnitude else magnitude;
        if IntMin <= v <= IntMax then Some(v) else None
  }

  // ---------------------------------------------------------------------------
  // isIP
  // ---------------------------------------------------------------------------

  /** A piece `isIP` accepts: it parses, and the value lies in 0..255. */
  predicate IsOctetText(p: string)
  {
    var v := ParseInt(p);
    v.Some? && 0 <= v.value <= 255
  }

  /** What `isIP` decides: four pieces, each an octet. */
  predicate IsDottedQuad(s: string)
  {
    var parts := SplitDots(s);
    |parts| == 4 && forall i :: 0 <= i < 4 ==> IsOctetText(parts[i])
  }

  /**
   * The address a text names, as `ipCompare` reads it: the values of its four
   * pieces. Defined exactly for the texts `isIP` accepts.
   */
  function ParseAddr(s: string): (r: Option<Addr>)
    ensures r.Some? <==> IsDottedQuad(s)
    ensures r.Some? ==> forall i :: 0 <= i < 4 ==> Some(r.value[i] as int) == ParseInt(SplitDots(s)[i])
  {
    if IsDottedQuad(s) then
      var parts := SplitDots(s);
      Some([ParseInt(parts[0]).value, ParseInt(parts[1]).value,
            ParseInt(parts[2]).value, ParseInt(parts[3]).value])
    else None
  }

  /**
   * `isIP` (IPLocate.java:185-203): false unless the text splits into four
   * pieces, then false at the first piece that does not parse or lies outside
   * 0..255, and true when all four pass.
   */
  method IsIP(ip: string) returns (b: bool)
    ensures b == IsDottedQuad(ip)
  {
    var parts := SplitDots(ip);
    if |parts| != 4 {
      return false;
    }
    for i := 0 to 4
      invariant forall j :: 0 <= j < i ==> IsOctetText(parts[j])
    {
      var value := ParseInt(parts[i]);
      if value.None? {
        return false;
      }
      if value.value < 0 || value.value > 255 {
        return false;
      }
    }
    return true;
  }

  // ---------------------------------------------------------------------------
  // The canonical text of an address, and the texts isIP accepts
  // ---------------------------------------------------------------------------

  /** The decimal text of a number, without leading zeros. */
  function DecimalText(n: nat): (s: string)
    ensures AllDigits(s) && '.' !in s
    decreases n
  {
    var d := [(('0' as int) + n % 10) as char];
    if n < 10 then d else DecimalText(n / 10) + d
  }

  /** Reading the decimal text back gives the number. */
  lemma {:induction false} DecimalTextValue(n: nat)
    ensures DigitsValue(DecimalText(n)) == n
    decreases n
  {
    if n >= 10 {
      DecimalTextValue(n / 10);
      var s := DecimalText(n);
      assert s[..|s| - 1] == DecimalText(n / 10);
    }
  }

  /** The usual dotted-decimal text of an address. */
  function Format(a: Addr): string
  {
    DecimalText(a[0]) + "." + DecimalText(a[1]) + "." + DecimalText(a[2]) + "." + DecimalText(a[3])
  }

  /** Cutting at a first '.' splits off the text before it. */
  lemma {:induction false} PiecesCut(x: string, y: string)
    requires '.' !in x
    ensures Pieces(x + "." + y) == [x] + Pieces(y)
    decreases |x|
  {
    if x == [] {
      assert x + "." + y == ['.'] + y;
      assert (['.'] + y)[1..] == y;
    } else {
      PiecesCut(x[1..], y);
      assert (x + "." + y)[1..] == x[1..] + "." + y;
      assert [x[0]] + x[1..] == x;
    }
  }

  /** A text without '.' is one piece. */
  lemma {:induction false} PiecesWhole(x: string)
    requires '.' !in x
    ensures Pieces(x) == [x]
    decreases |x|
  {
    if x != [] {
      PiecesWhole(x[1..]);
      assert [x[0]] + x[1..] == x;
    }
  }

  /** The four pieces of an address's dotted-decimal text. */
  lemma SplitFormat(a: Addr)
    ensures SplitDots(Format(a)) == [DecimalText(a[0]), DecimalText(a[1]), DecimalText(a[2]), DecimalText(a[3])]
  {
    var t0, t1, t2, t3 := DecimalText(a[0]), DecimalText(a[1]), DecimalText(a[2]), DecimalText(a[3]);
    var s2 := t2 + "." + t3;
    var s1 := t1 + "." + s2;
    var s0 := t0 + "." + s1;
    assert Format(a) == s0;
    PiecesWhole(t3);
    PiecesCut(t2, t3);
    PiecesCut(t1, s2);
    PiecesCut(t0, s1);
    assert s0[|t0|] == '.';
    assert Pieces(s0) == [t0, t1, t2, t3];
  }

  /**
   * Round trip: `isIP` accepts the dotted-decimal text of every address, and
   * the text names that address.
   */
  lemma FormatParses(a: Addr)
    ensures IsDottedQuad(Format(a))
    ensures ParseAddr(Format(a)) == Some(a)
  {
    SplitFormat(a);
    forall i | 0 <= i < 4
      ensures ParseInt(DecimalText(a[i])) == Some(a[i] as int)
    {
      DecimalTextValue(a[i]);
    }
    assert ParseAddr(Format(a)).value == a;
  }

  /** The pieces of an address's dotted-decimal text with one '.' appended. */
  lemma PiecesFormatDot(a: Addr)
    ensures Pieces(Format(a) + ".") ==
      [DecimalText(a[0]), DecimalText(a[1]), DecimalText(a[2]), DecimalText(a[3]), ""]
  {
    var t0, t1, t2, t3 := DecimalText(a[0]), DecimalText(a[1]), DecimalText(a[2]), DecimalText(a[3]);
    var s3 := t3 + "." + "";
    var s2 := t2 + "." + s3;
    var s1 := t1 + "." + s2;
    var s0 := t0 + "." + s1;
    assert Format(a) + "." == s0;
    PiecesWhole("");
    PiecesCut(t3, "");
    PiecesCut(t2, s3);
    PiecesCut(t1, s2);
    PiecesCut(t0, s1);
  }

  /**
   * `split` drops a trailing empty piece, so `isIP` also accepts the text with
   * one '.' appended, and it names the same address.
   */
  lemma TrailingDotAccepted(a: Addr)
    ensures IsDottedQuad(Format(a) + ".")
    ensures ParseAddr(Format(a) + ".") == Some(a)
  {
    var ps := Pieces(Format(a) + ".");
    PiecesFormatDot(a);
    assert (Format(a) + ".")[|Format(a)|] == '.';
    assert DropTrailingEmpty(ps) == ps[..4];
    SplitFormat(a);
    assert SplitDots(Format(a) + ".") == SplitDots(Format(a));
    FormatParses(a);
  }

  /** A leading zero before a piece is accepted and does not change its value. */
  lemma {:induction false} LeadingZeroValue(s: string)
    requires AllDigits(s)
    ensures AllDigits("0" + s) && DigitsValue("0" + s) == DigitsValue(s)
    decreases |s|
  {
    var z := "0" + s;
    if |s| > 1 {
      LeadingZeroValue(s[..|s| - 1]);
      assert z[..|z| - 1] == "0" + s[..|s| - 1];
    }
  }
}
