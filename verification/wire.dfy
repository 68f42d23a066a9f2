/**
 * The text protocol streamUSB.py speaks to a camera: one
 * `W {reg:04X} {val:02X}\n` line per register write, `R\n` to reset the
 * sensor and `S\n` to request a frame. Python's `X` format spec prints
 * upper-case hexadecimal, zero-padded to the given width and never
 * truncated; a negative number gets a `-` sign that counts towards the width.
 */
module Wire {
  import opened Common
  import opened Registers

  predicate IsHexDigit(c: char) {
    ('0' <= c <= '9') || ('A' <= c <= 'F')
  }

  predicate AllHex(s: string) {
    forall i :: 0 <= i < |s| ==> IsHexDigit(s[i])
  }

  function HexChar(d: int): (c: char)
    requires 0 <= d < 16
    ensures IsHexDigit(c)
  {
    if d < 10 then ('0' as int + d) as char else ('A' as int + d - 10) as char
  }

  function HexValue(c: char): (d: int)
    requires IsHexDigit(c)
    ensures 0 <= d < 16
    ensures HexChar(d) == c
  {
    if c <= '9' then c as int - '0' as int else c as int - 'A' as int + 10
  }

  /** Reads a string of hexadecimal digits, most significant first. */
  function ParseHex(s: string): nat
    requires AllHex(s)
  {
    if |s| == 0 then 0 else ParseHex(s[..|s| - 1]) * 16 + HexValue(s[|s| - 1])
  }

  function Pow16(w: nat): (p: nat)
    ensures p >= 1
  {
    if w == 0 then 1 else 16 * Pow16(w - 1)
  }

  /** `format(n, "0{w}X")` for n >= 0. */
  function HexPad(n: nat, w: nat): (s: string)
    ensures AllHex(s)
    ensures |s| >= 1 && |s| >= w
    ensures ParseHex(s) == n
    ensures w >= 1 && n < Pow16(w) ==> |s| == w
    decreases n + w
  {
    if n < 16 && w <= 1 then [HexChar(n)]
    else
      var p := HexPad(n / 16, if w == 0 then 0 else w - 1);
      var s := p + [HexChar(n % 16)];
      assert s[..|s| - 1] == p;
      s
  }

  /** Reading and re-printing at the same width gives back the digits. */
  lemma {:induction false} HexPadOfParse(s: string)
    requires AllHex(s) && |s| >= 1
    ensures HexPad(ParseHex(s), |s|) == s
  {
    var p, c := s[..|s| - 1], s[|s| - 1];
    var d := HexValue(c);
    assert ParseHex(s) == ParseHex(p) * 16 + d;
    if |s| >= 2 {
      HexPadOfParse(p);
      HexPadStep(ParseHex(p), d, |s|);
      assert s == p + [c];
    } else {
      assert s == [c];
    }
  }

  /** Printing one more digit puts the last digit after the others. */
  lemma HexPadStep(q: nat, d: int, w: nat)
    requires 0 <= d < 16 && w >= 2
    ensures HexPad(q * 16 + d, w) == HexPad(q, w - 1) + [HexChar(d)]
  {
    DivMod16(q, d);
  }

  lemma DivMod16(q: nat, d: int)
    requires 0 <= d < 16
    ensures (q * 16 + d) / 16 == q && (q * 16 + d) % 16 == d
  {
  }

  /** `format(n, "0{w}X")`, including Python's sign-aware padding. */
  function FormatHex(n: int, w: nat): (s: string)
    ensures |s| >= 1 && |s| >= w
    ensures n >= 0 ==> AllHex(s) && ParseHex(s) == n
    ensures n < 0 ==> s[0] == '-' && AllHex(s[1..]) && ParseHex(s[1..]) == -n
  {
    if n >= 0 then HexPad(n, w) else "-" + HexPad(-n, if w == 0 then 0 else w - 1)
  }

  /** `f"W {reg:04X} {val:02X}\n"`. */
  function WriteCommand(reg: int, val: int): string {
    "W " + FormatHex(reg, 4) + " " + FormatHex(val, 2) + "\n"
  }

  const ResetCommand: string := "R\n"
  const CaptureCommand: string := "S\n"

  /** The receiving side of one write line: exactly ten characters. */
  function ParseWriteCommand(s: string): Option<Entry> {
    if |s| == 10 && s[0] == 'W' && s[1] == ' ' && s[6] == ' ' && s[9] == '\n'
       && AllHex(s[2..6]) && AllHex(s[7..9])
    then Some((ParseHex(s[2..6]), ParseHex(s[7..9])))
    else None
  }

  /** A register address fits 16 bits and a value fits 8. */
  predicate InRange(e: Entry) {
    0 <= e.0 < 0x1_0000 && 0 <= e.1 < 0x100
  }

  /** An in-range write is a ten-character line that reads back as itself. */
  lemma WriteCommandRoundTrip(reg: int, val: int)
    requires InRange((reg, val))
    ensures |WriteCommand(reg, val)| == 10
    ensures ParseWriteCommand(WriteCommand(reg, val)) == Some((reg, val))
  {
    assert Pow16(4) == 0x1_0000 && Pow16(2) == 0x100;
    var s := WriteCommand(reg, val);
    assert s[2..6] == HexPad(reg, 4);
    assert s[7..9] == HexPad(val, 2);
  }

  /** Every accepted line is the encoding of what it decodes to. */
  lemma ParseWriteCommandSound(s: string)
    requires ParseWriteCommand(s).Some?
    ensures InRange(ParseWriteCommand(s).value)
    ensures WriteCommand(ParseWriteCommand(s).value.0, ParseWriteCommand(s).value.1) == s
  {
    HexPadOfParse(s[2..6]);
    HexPadOfParse(s[7..9]);
    assert Pow16(4) == 0x1_0000 && Pow16(2) == 0x100;
    assert ParseHex(s[2..6]) < 0x1_0000 by {
      HexPadBound(s[2..6]);
    }
    assert ParseHex(s[7..9]) < 0x100 by {
      HexPadBound(s[7..9]);
    }
    assert s == "W " + s[2..6] + " " + s[7..9] + "\n";
  }

  /** A string of w digits denotes a number below 16^w. */
  lemma {:induction false} HexPadBound(s: string)
    requires AllHex(s)
    ensures ParseHex(s) < Pow16(|s|)
  {
    if |s| > 0 {
      HexPadBound(s[..|s| - 1]);
    }
  }

  /** The write lines of a register table, in table order. */
  function Commands(t: Table): string {
    if |t| == 0 then "" else WriteCommand(t[0].0, t[0].1) + Commands(t[1..])
  }

  /** What UPDATE sends: every entry of the table, then the reset. */
  function UpdateStream(t: Table): string {
    Commands(t) + ResetCommand
  }

  /** The camera side of UPDATE: write lines until the reset line. */
  function ParseUpdateStream(s: string): Option<Table>
    decreases |s|
  {
    if s == ResetCommand then Some([])
    else if |s| < 10 then None
    else
      match ParseWriteCommand(s[..10])
      case None => None
      case Some(e) =>
        match ParseUpdateStream(s[10..])
        case None => None
        case Some(t) => Some([e] + t)
  }

  predicate TableInRange(t: Table) {
    forall i :: 0 <= i < |t| ==> InRange(t[i])
  }

  /** Ten characters per register and two for the reset. */
  lemma {:induction false} UpdateStreamLength(t: Table)
    requires TableInRange(t)
    ensures |UpdateStream(t)| == 10 * |t| + 2
    ensures |Commands(t)| == 10 * |t|
  {
    if |t| > 0 {
      WriteCommandRoundTrip(t[0].0, t[0].1);
      UpdateStreamLength(t[1..]);
    }
  }

  /** The camera reads back exactly the table that was sent, in order. */
  lemma {:induction false} UpdateStreamRoundTrip(t: Table)
    requires TableInRange(t)
    ensures ParseUpdateStream(UpdateStream(t)) == Some(t)
  {
    if |t| > 0 {
      var c, rest := WriteCommand(t[0].0, t[0].1), UpdateStream(t[1..]);
      WriteCommandRoundTrip(t[0].0, t[0].1);
      TableInRangeTail(t);
      UpdateStreamRoundTrip(t[1..]);
      UpdateStreamCons(t);
      ParseUpdateStreamCons(c, rest);
      assert [t[0]] + t[1..] == t;
    }
  }

  lemma TableInRangeTail(t: Table)
    requires |t| > 0 && TableInRange(t)
    ensures InRange(t[0]) && TableInRange(t[1..])
  {
    forall i | 0 <= i < |t| - 1 ensures InRange(t[1..][i]) {
      assert t[1..][i] == t[i + 1];
    }
  }

  lemma UpdateStreamCons(t: Table)
    requires |t| > 0
    ensures UpdateStream(t) == WriteCommand(t[0].0, t[0].1) + UpdateStream(t[1..])
  {
  }

  /** A well-formed write line in front of an accepted stream adds its entry in front. */
  lemma ParseUpdateStreamCons(c: string, rest: string)
    requires |c| == 10 && ParseWriteCommand(c).Some? && ParseUpdateStream(rest).Some?
    ensures ParseUpdateStream(c + rest) == Some([ParseWriteCommand(c).value] + ParseUpdateStream(rest).value)
  {
    var s := c + rest;
    assert s != ResetCommand by {
      assert |s| >= 10;
    }
    assert s[..10] == c;
    assert s[10..] == rest;
  }

  /** Every stream the camera accepts is the UPDATE stream of what it read. */
  lemma {:induction false} ParseUpdateStreamSound(s: string)
    requires ParseUpdateStream(s).Some?
    ensures TableInRange(ParseUpdateStream(s).value)
    ensures UpdateStream(ParseUpdateStream(s).value) == s
    decreases |s|
  {
    if s != ResetCommand {
      var e := ParseWriteCommand(s[..10]).value;
      ParseWriteCommandSound(s[..10]);
      ParseUpdateStreamSound(s[10..]);
      var t := ParseUpdateStream(s[10..]).value;
      assert ParseUpdateStream(s).value == [e] + t;
      assert ([e] + t)[1..] == t;
      assert s == s[..10] + s[10..];
    }
  }
}
