/** Rendering of a received chunk for the trace log: the `format_data`
    escaper of the relay. The text is the input between double quotes, with
    a fixed escape table, cut off once it has reached a fixed width. */
module Trace {

  /** An octet, as the source's `u8`. */
  type byte = x: int | 0 <= x < 256

  datatype Option<T> = None | Some(value: T)

  /** Once the text built so far (opening quote included) is this long, no
      further input byte is rendered (`MAX_WIDTH`). */
  const MaxWidth: nat := 40

  predicate IsAscii(s: string) {
    forall i :: 0 <= i < |s| ==> s[i] as int < 128
  }

  /** Lower-case hexadecimal digit of a nibble. */
  function HexDigit(n: int): (d: char)
    requires 0 <= n < 16
    ensures d in "0123456789abcdef"
    ensures HexValue(d) == Some(n)
  {
    if n < 10 then ('0' as int + n) as char else ('a' as int + n - 10) as char
  }

  /** Value of a lower-case hexadecimal digit. */
  function HexValue(d: char): (r: Option<int>)
    ensures r.Some? <==> d in "0123456789abcdef"
  {
    if '0' <= d <= '9' then Some(d as int - '0' as int)
    else if 'a' <= d <= 'f' then Some(d as int - 'a' as int + 10)
    else None
  }

  /** Bytes that are copied into the text as the character of the same code. */
  predicate Verbatim(c: byte) {
    0x20 <= c < 0x80 && c != 0x5c
  }

  /** The text one input byte turns into. Line feed, tab, carriage return and
      backslash become a backslash and a letter (or a second backslash); the
      other bytes from space up to and including DEL stand for themselves;
      every remaining byte is `\x` and two lower-case hexadecimal digits. */
  function Escape(c: byte): (r: string)
    ensures 1 <= |r| <= 4
  {
    if c == 0x0a then "\\n"
    else if c == 0x09 then "\\t"
    else if c == 0x0d then "\\r"
    else if c == 0x5c then "\\\\"
    else if 0x20 <= c < 0x80 then [c as char]
    else "\\x" + [HexDigit(c / 16), HexDigit(c % 16)]
  }

  /** What each kind of byte turns into. */
  lemma EscapeTable(c: byte)
    ensures IsAscii(Escape(c))
    ensures c == 0x0a ==> Escape(c) == "\\n"
    ensures c == 0x09 ==> Escape(c) == "\\t"
    ensures c == 0x0d ==> Escape(c) == "\\r"
    ensures c == 0x5c ==> Escape(c) == "\\\\"
    ensures Verbatim(c) <==> |Escape(c)| == 1
    ensures Verbatim(c) ==> Escape(c)[0] as int == c
    ensures !Verbatim(c) && c !in {0x0a, 0x09, 0x0d, 0x5c} <==> |Escape(c)| == 4
    ensures |Escape(c)| == 4 ==>
      var r := Escape(c);
      r[..2] == "\\x" && HexValue(r[2]).Some? && HexValue(r[3]).Some? &&
      HexValue(r[2]).value * 16 + HexValue(r[3]).value == c
  {
  }

  /** The per-byte escapes of a whole byte sequence, concatenated in order. */
  function EscapeAll(s: seq<byte>): string
  {
    if s == [] then [] else Escape(s[0]) + EscapeAll(s[1..])
  }

  /** Length of the text built before input byte `j` is looked at: the opening
      quote and the escapes of the `j` bytes before it. */
  function Width(data: seq<byte>, j: nat): nat
    requires j <= |data|
  {
    1 + |EscapeAll(data[..j])|
  }

  /** Number of input bytes that are rendered: the first position at which the
      input is exhausted or the text built so far has reached MaxWidth. */
  function Consumed(data: seq<byte>): (k: nat)
    ensures k <= |data|
    ensures k == |data| || Width(data, k) >= MaxWidth
    ensures forall j :: 0 <= j < k ==> Width(data, j) < MaxWidth
  {
    ConsumedFrom(data, 0)
  }

  function ConsumedFrom(data: seq<byte>, from: nat): (k: nat)
    requires from <= |data|
    requires forall j :: 0 <= j < from ==> Width(data, j) < MaxWidth
    ensures from <= k <= |data|
    ensures k == |data| || Width(data, k) >= MaxWidth
    ensures forall j :: 0 <= j < k ==> Width(data, j) < MaxWidth
    decreases |data| - from
  {
    if from == |data| || Width(data, from) >= MaxWidth then from
    else ConsumedFrom(data, from + 1)
  }

  /** The escaper stops before the end of its input. */
  predicate Truncated(data: seq<byte>) {
    Consumed(data) < |data|
  }

  /** What `format_data` returns: a double quote, the escapes of the consumed
      bytes, a double quote, and `...` when bytes were left over. */
  function Format(data: seq<byte>): string
  {
    var k := Consumed(data);
    var quoted := "\"" + EscapeAll(data[..k]) + "\"";
    if k < |data| then quoted + "..." else quoted
  }

  /** The escaper as the source writes it: a loop that pushes onto a growing
      string, with an overflow flag and an early exit. */
  method FormatData(data: seq<byte>) returns (res: string)
    ensures res == Format(data)
  {
    var overflow := false;
    res := "\"";
    var i := 0;
    while i < |data|
      invariant i <= |data|
      invariant res == "\"" + EscapeAll(data[..i])
      invariant i <= Consumed(data)
      invariant !overflow
    {
      if |res| >= MaxWidth {
        overflow := true;
        break;
      }
      var e := Escape(data[i]);
      RenderNext(data, i, res, e);
      res := res + e;
      i := i + 1;
    }
    FormatOfExit(data, i);
    res := res + "\"";
    if overflow {
      res := res + "...";
    }
  }

  /** One loop iteration: the text grows by the escape of the next byte, and
      the loop has not yet reached the position where it stops. */
  lemma RenderNext(data: seq<byte>, i: nat, res: string, e: string)
    requires i < |data| && i <= Consumed(data)
    requires res == "\"" + EscapeAll(data[..i]) && |res| < MaxWidth
    requires e == Escape(data[i])
    ensures res + e == "\"" + EscapeAll(data[..i + 1])
    ensures i + 1 <= Consumed(data)
  {
    EscapeAllPrefix(data, i);
    AppendAssoc("\"", EscapeAll(data[..i]), e);
    ConsumedPast(data, i);
  }

  lemma AppendAssoc(a: string, b: string, c: string)
    ensures (a + b) + c == a + (b + c)
  {
  }

  lemma ConsumedPast(data: seq<byte>, i: nat)
    requires i < |data| && i <= Consumed(data)
    requires Width(data, i) < MaxWidth
    ensures i + 1 <= Consumed(data)
  {
  }

  /** Where the loop stops determines the whole text. */
  lemma FormatOfExit(data: seq<byte>, i: nat)
    requires i <= |data|
    requires i == |data| || Width(data, i) >= MaxWidth
    requires i <= Consumed(data)
    ensures Consumed(data) == i
    ensures var quoted := "\"" + EscapeAll(data[..i]) + "\"";
            Format(data) == if i < |data| then quoted + "..." else quoted
  {
    ConsumedUnique(data, i);
  }

  // ---------------------------------------------------------------------
  // Properties of the escaper

  lemma {:induction false} EscapeAllAppend(a: seq<byte>, b: seq<byte>)
    ensures EscapeAll(a + b) == EscapeAll(a) + EscapeAll(b)
  {
    if a == [] {
      assert a + b == b;
    } else {
      assert (a + b)[0] == a[0];
      assert (a + b)[1..] == a[1..] + b;
      EscapeAllAppend(a[1..], b);
    }
  }

  /** Rendering one more byte extends the text by that byte's escape. */
  lemma EscapeAllPrefix(data: seq<byte>, i: nat)
    requires i < |data|
    ensures EscapeAll(data[..i + 1]) == EscapeAll(data[..i]) + Escape(data[i])
  {
    assert data[..i + 1] == data[..i] + [data[i]];
    EscapeAllAppend(data[..i], [data[i]]);
  }

  /** Consumed is the only position that stops the loop. */
  lemma ConsumedUnique(data: seq<byte>, k: nat)
    requires k <= |data|
    requires k == |data| || Width(data, k) >= MaxWidth
    requires forall j :: 0 <= j < k ==> Width(data, j) < MaxWidth
    ensures Consumed(data) == k
  {
  }

  lemma {:induction false} EscapeAllLength(s: seq<byte>)
    ensures |s| <= |EscapeAll(s)| <= 4 * |s|
  {
    if s != [] {
      EscapeAllLength(s[1..]);
    }
  }

  lemma {:induction false} EscapeAllAscii(s: seq<byte>)
    ensures IsAscii(EscapeAll(s))
  {
    if s != [] {
      EscapeAllAscii(s[1..]);
      EscapeTable(s[0]);
      AsciiAppend(Escape(s[0]), EscapeAll(s[1..]));
    }
  }

  /** The empty chunk is rendered as two double quotes. */
  lemma FormatEmpty()
    ensures Format([]) == "\"\""
  {
    assert Consumed([]) == 0;
  }

  /** The text always opens with a double quote. */
  lemma FormatOpensWithQuote(data: seq<byte>)
    ensures |Format(data)| >= 2 && Format(data)[0] == '"'
  {
  }

  /** Without truncation the text is the quoted escape of the whole input. */
  lemma FormatWhole(data: seq<byte>)
    requires forall j :: 0 <= j < |data| ==> Width(data, j) < MaxWidth
    ensures !Truncated(data)
    ensures Format(data) == "\"" + EscapeAll(data) + "\""
  {
    ConsumedUnique(data, |data|);
    assert data[..|data|] == data;
  }

  /** `...` is appended exactly when some byte is reached with the text already
      MaxWidth long; then the quoted part has reached that width and is the
      escape of a proper prefix of the input. */
  lemma TruncatedIff(data: seq<byte>)
    ensures Truncated(data) <==> exists j :: 0 <= j < |data| && Width(data, j) >= MaxWidth
    ensures Truncated(data) ==>
      Width(data, Consumed(data)) >= MaxWidth &&
      Format(data) == ("\"" + EscapeAll(data[..Consumed(data)]) + "\"") + "..."
    ensures !Truncated(data) ==> Format(data) == "\"" + EscapeAll(data) + "\""
  {
    var k := Consumed(data);
    if k < |data| {
      assert Width(data, k) >= MaxWidth;
    } else {
      assert data[..k] == data;
    }
  }

  /** The text is at most 47 characters: at most 39 before the last rendered
      byte, at most 4 for that byte, then `"` and `...`. */
  lemma FormatLength(data: seq<byte>)
    ensures |Format(data)| <= MaxWidth + 7
    ensures !Truncated(data) ==> |Format(data)| <= MaxWidth + 4
  {
    var k := Consumed(data);
    if k > 0 {
      assert Width(data, k - 1) < MaxWidth;
      EscapeAllPrefix(data, k - 1);
      assert data[..k - 1 + 1] == data[..k];
    }
  }

  lemma AsciiAppend(a: string, b: string)
    requires IsAscii(a) && IsAscii(b)
    ensures IsAscii(a + b)
  {
    forall i | 0 <= i < |a + b| ensures (a + b)[i] as int < 128 {
      if i >= |a| {
        assert (a + b)[i] == b[i - |a|];
      }
    }
  }

  /** Every character of the text is ASCII, so its length in characters is
      also its length in UTF-8 bytes, the length the source compares. */
  lemma FormatAscii(data: seq<byte>)
    ensures IsAscii(Format(data))
  {
    var k := Consumed(data);
    EscapeAllAscii(data[..k]);
    AsciiAppend("\"", EscapeAll(data[..k]));
    AsciiAppend("\"" + EscapeAll(data[..k]), "\"");
    AsciiAppend("\"" + EscapeAll(data[..k]) + "\"", "...");
  }

  /** A chunk of at most ten bytes is never truncated. */
  lemma ShortNeverTruncated(data: seq<byte>)
    requires |data| <= 10
    ensures !Truncated(data)
    ensures Format(data) == "\"" + EscapeAll(data) + "\""
  {
    forall j | 0 <= j < |data| ensures Width(data, j) < MaxWidth {
      EscapeAllLength(data[..j]);
    }
    FormatWhole(data);
  }

  /** A chunk of 40 bytes or more is always truncated, after at most 39 bytes. */
  lemma LongAlwaysTruncated(data: seq<byte>)
    requires |data| >= MaxWidth
    ensures Truncated(data) && Consumed(data) < MaxWidth
  {
    EscapeAllLength(data[..MaxWidth - 1]);
    assert Width(data, MaxWidth - 1) >= MaxWidth;
  }

  // ---------------------------------------------------------------------
  // The escape table is unambiguous: the text between the quotes decodes
  // back to the bytes it was made from.

  function Unescape(t: string): Option<seq<byte>>
    decreases |t|
  {
    if t == [] then Some([])
    else if t[0] == '\\' then
      if |t| >= 2 && t[1] in "ntr\\" then
        var c: byte := if t[1] == 'n' then 0x0a else if t[1] == 't' then 0x09
                       else if t[1] == 'r' then 0x0d else 0x5c;
        Prepend(c, Unescape(t[2..]))
      else if |t| >= 4 && t[1] == 'x' && HexValue(t[2]).Some? && HexValue(t[3]).Some? then
        Prepend(HexValue(t[2]).value * 16 + HexValue(t[3]).value, Unescape(t[4..]))
      else None
    else if 0x20 <= t[0] as int < 0x80 then Prepend(t[0] as int, Unescape(t[1..]))
    else None
  }

  function Prepend(c: byte, rest: Option<seq<byte>>): Option<seq<byte>>
  {
    if rest.Some? then Some([c] + rest.value) else None
  }

  lemma UnescapeOne(c: byte, rest: string)
    ensures Unescape(Escape(c) + rest) == Prepend(c, Unescape(rest))
  {
    var t := Escape(c) + rest;
    EscapeTable(c);
    if |Escape(c)| == 4 {
      assert t[4..] == rest;
    } else if |Escape(c)| == 2 {
      assert t[2..] == rest;
    } else {
      assert t[1..] == rest;
    }
  }

  lemma {:induction false} UnescapeEscapeAll(s: seq<byte>)
    ensures Unescape(EscapeAll(s)) == Some(s)
  {
    if s != [] {
      UnescapeEscapeAll(s[1..]);
      UnescapeOne(s[0], EscapeAll(s[1..]));
      assert [s[0]] + s[1..] == s;
    }
  }
}
