/** File metadata stored as text: one "key: number" line for each attribute, read back
    through an input stream. */
module FileMetadata {
  import opened Prelude

  const TWO32 := 0x1_0000_0000
  const TWO64 := 0x1_0000_0000_0000_0000

  datatype Metadata = Metadata(version: nat, atime: nat, mtime: nat)

  predicate InRange(m: Metadata) {
    m.version < TWO32 && m.atime < TWO64 && m.mtime < TWO64
  }

  // ---------------------------------------------------------------- numbers

  /** The value of a character as a digit; 36 when it is none. */
  function DigitValue(c: char): nat {
    if '0' <= c <= '9' then c as int - '0' as int
    else if 'a' <= c <= 'z' then c as int - 'a' as int + 10
    else if 'A' <= c <= 'Z' then c as int - 'A' as int + 10
    else 36
  }

  function DigitChar(d: nat): (c: char)
    requires d < 16
    ensures DigitValue(c) == d && (d < 10 ==> '0' <= c <= '9') && (d > 0 ==> c != '0')
  {
    "0123456789abcdef"[d]
  }

  lemma QuotientShrinks(n: nat, base: nat)
    requires 2 <= base <= n
    ensures 0 < n / base < n && n % base < base
  {
    QuotientRemainder(n, base);
  }

  /** The digits of a number to a base. */
  function Numeral(n: nat, base: nat): (s: string)
    requires 2 <= base <= 16
    ensures s != "" && forall i | 0 <= i < |s| :: DigitValue(s[i]) < base
    ensures n > 0 ==> s[0] != '0'
  {
    if n < base then [DigitChar(n)]
    else
      QuotientShrinks(n, base);
      Numeral(n / base, base) + [DigitChar(n % base)]
  }

  /** Decimal printing. */
  function Printed(n: nat): (s: string)
    ensures s != "" && forall i | 0 <= i < |s| :: '0' <= s[i] <= '9'
    ensures n > 0 ==> s[0] != '0'
  {
    Numeral(n, 10)
  }

  /** The number that the longest run of digits of a base stands for. */
  function DigitRun(s: string, base: nat, acc: nat): nat {
    if s == "" || DigitValue(s[0]) >= base then acc else DigitRun(s[1..], base, acc * base + DigitValue(s[0]))
  }

  predicate IsSpace(c: char) {
    c in " \t\n\r" || c == '\U{b}' || c == '\U{c}'
  }

  function SkipSpace(s: string): string {
    if s != "" && IsSpace(s[0]) then SkipSpace(s[1..]) else s
  }

  /** A prefix tells the base: hexadecimal, octal or decimal. */
  function BaseZero(s: string): nat {
    if |s| >= 3 && s[0] == '0' && s[1] in "xX" && DigitValue(s[2]) < 16 then DigitRun(s[2..], 16, 0)
    else if s != "" && s[0] == '0' then DigitRun(s, 8, 0)
    else DigitRun(s, 10, 0)
  }

  /** strtoull with base 0: a sign is allowed, too large a number saturates. */
  function Strtoull(s: string): (v: nat)
    ensures v < TWO64
  {
    var t := SkipSpace(s);
    var v := BaseZero(if t != "" && t[0] in "+-" then t[1..] else t);
    if v >= TWO64 then TWO64 - 1
    else if t != "" && t[0] == '-' && v > 0 then TWO64 - v
    else v
  }

  lemma {:induction false} DigitRunSnoc(s: string, c: char, base: nat, acc: nat)
    requires DigitValue(c) < base && forall i | 0 <= i < |s| :: DigitValue(s[i]) < base
    ensures DigitRun(s + [c], base, acc) == DigitRun(s, base, acc) * base + DigitValue(c)
  {
    if s == "" {
      assert s + [c] == [c] && [c][1..] == "";
    } else {
      assert (s + [c])[1..] == s[1..] + [c];
      DigitRunSnoc(s[1..], c, base, acc * base + DigitValue(s[0]));
    }
  }

  /** What is no digit ends the run. */
  lemma {:induction false} DigitRunStops(s: string, rest: string, base: nat, acc: nat)
    requires (forall i | 0 <= i < |s| :: DigitValue(s[i]) < base) && (rest == "" || DigitValue(rest[0]) >= base)
    ensures DigitRun(s + rest, base, acc) == DigitRun(s, base, acc)
  {
    if s == "" {
      assert s + rest == rest;
    } else {
      assert (s + rest)[1..] == s[1..] + rest;
      DigitRunStops(s[1..], rest, base, acc * base + DigitValue(s[0]));
    }
  }

  lemma QuotientRemainder(n: nat, base: nat)
    requires base > 0
    ensures n / base * base + n % base == n
  {
  }

  lemma {:induction false} NumeralValue(n: nat, base: nat)
    requires 2 <= base <= 16
    ensures DigitRun(Numeral(n, base), base, 0) == n
    decreases n
  {
    if n < base {
      var s := Numeral(n, base);
      assert s[1..] == "";
      assert DigitRun(s, base, 0) == DigitRun(s[1..], base, n);
    } else {
      NumeralValue(n / base, base);
      QuotientRemainder(n, base);
      DigitRunSnoc(Numeral(n / base, base), DigitChar(n % base), base, 0);
    }
  }

  lemma NumeralRead(n: nat, base: nat, rest: string)
    requires 2 <= base <= 16 && (rest == "" || DigitValue(rest[0]) == 36)
    ensures DigitRun(Numeral(n, base) + rest, base, 0) == n
  {
    NumeralValue(n, base);
    DigitRunStops(Numeral(n, base), rest, base, 0);
  }

  function Saturated(n: nat): nat {
    if n < 0x1_0000_0000_0000_0000 then n else 0xFFFF_FFFF_FFFF_FFFF
  }

  /** The base is guessed from the first digits. */
  lemma BaseGuessed(n: nat, rest: string)
    requires rest == "" || DigitValue(rest[0]) == 36
    ensures BaseZero(Numeral(n, 10) + rest) == n
    ensures BaseZero("0" + (Numeral(n, 8) + rest)) == n
    ensures BaseZero("0x" + (Numeral(n, 16) + rest)) == n
  {
    NumeralRead(n, 10, rest);
    NumeralRead(n, 8, rest);
    NumeralRead(n, 16, rest);
    DecimalGuessed(n, rest);
    OctalGuessed(Numeral(n, 8), rest);
    HexGuessed(Numeral(n, 16), rest);
  }

  lemma DecimalGuessed(n: nat, rest: string)
    requires rest == "" || DigitValue(rest[0]) == 36
    ensures BaseZero(Numeral(n, 10) + rest) == DigitRun(Numeral(n, 10) + rest, 10, 0)
  {
    var s := Numeral(n, 10) + rest;
    assert s[0] == Numeral(n, 10)[0];
    if n == 0 {
      assert s == "0" + rest && s[1..] == rest;
      assert rest != "" ==> s[1] == rest[0];
      DigitRunStops("0", rest, 8, 0);
      DigitRunStops("0", rest, 10, 0);
      assert "0"[1..] == "";
    }
  }

  lemma OctalGuessed(digits: string, rest: string)
    requires digits != "" && forall i | 0 <= i < |digits| :: DigitValue(digits[i]) < 8
    ensures BaseZero("0" + (digits + rest)) == DigitRun(digits + rest, 8, 0)
  {
    var s := "0" + (digits + rest);
    assert s[1] == digits[0] && s[1..] == digits + rest;
  }

  lemma HexGuessed(digits: string, rest: string)
    requires digits != "" && forall i | 0 <= i < |digits| :: DigitValue(digits[i]) < 16
    ensures BaseZero("0x" + (digits + rest)) == DigitRun(digits + rest, 16, 0)
  {
    var s := "0x" + (digits + rest);
    assert s[2] == digits[0] && s[2..] == digits + rest;
  }

  /** What the parser makes of the numerals of any number in the three bases, whatever other
      characters follow: the number, or the largest one if that is too large; behind a minus
      sign its negative, modulo 2^64. */
  lemma NumeralParsed(n: nat, rest: string)
    requires rest == "" || DigitValue(rest[0]) == 36
    ensures Strtoull(Numeral(n, 10) + rest) == Saturated(n)
    ensures Strtoull("0" + (Numeral(n, 8) + rest)) == Saturated(n)
    ensures Strtoull("0x" + (Numeral(n, 16) + rest)) == Saturated(n)
    ensures Strtoull("-" + (Numeral(n, 10) + rest)) ==
            if n == 0 then 0 else if n < 0x1_0000_0000_0000_0000 then 0x1_0000_0000_0000_0000 - n
            else 0xFFFF_FFFF_FFFF_FFFF
  {
    BaseGuessed(n, rest);
    Unsigned(Numeral(n, 10) + rest);
    Unsigned("0" + (Numeral(n, 8) + rest));
    Unsigned("0x" + (Numeral(n, 16) + rest));
    Negative(Numeral(n, 10) + rest);
  }

  lemma Negative(s: string)
    ensures var v := BaseZero(s);
            Strtoull("-" + s) == if v == 0 then 0 else if v < TWO64 then TWO64 - v else TWO64 - 1
  {
    var t := "-" + s;
    assert t[1..] == s && SkipSpace(t) == t;
  }

  /** Without space or sign the value is that of the digits. */
  lemma Unsigned(s: string)
    requires s != "" && DigitValue(s[0]) < 36
    ensures Strtoull(s) == Saturated(BaseZero(s))
  {
    assert SkipSpace(s) == s;
  }

  /** Space in front (a blank or one of the characters 9 to 13) does not matter, nor does a
      plus sign in front of a digit; any other character makes it 0. */
  lemma SpaceSkipped(c: char, s: string)
    ensures c == ' ' || 9 <= c as int <= 13 ==> Strtoull([c] + s) == Strtoull(s)
    ensures c != ' ' && !(9 <= c as int <= 13) && c !in "+-" && DigitValue(c) == 36 ==> Strtoull([c] + s) == 0
    ensures s != "" && DigitValue(s[0]) < 36 ==> Strtoull("+" + s) == Strtoull(s)
  {
    var t := [c] + s;
    assert t[1..] == s && t[0] == c && ("+" + s)[1..] == s;
  }

  /** Digits beyond 9 may be upper-case, and so may the sign of the base 16. */
  lemma UpperCaseRead(c: char, s: string)
    ensures 'A' <= c <= 'Z' ==> DigitValue(c) == DigitValue((c as int + 32) as char) < 36
    ensures DigitValue(c) < 36 <==> '0' <= c <= '9' || 'a' <= c <= 'z' || 'A' <= c <= 'Z'
    ensures Strtoull("0X" + s) == Strtoull("0x" + s)
  {
    var t, u := "0X" + s, "0x" + s;
    assert t[0] == u[0] == '0' && t[1] == 'X' && u[1] == 'x' && t[2..] == s == u[2..];
    assert DigitRun(t[1..], 8, 0) == 0 == DigitRun(u[1..], 8, 0);
  }

  /** Parsing a printed number gives it back, although the base is guessed from its
      first digits. */
  lemma ParseUndoesPrint(n: nat)
    requires n < TWO64
    ensures Strtoull(Printed(n)) == n
  {
    NumeralParsed(n, "");
    assert Printed(n) + "" == Printed(n);
  }

  lemma {:induction false} PrintedLength(n: nat, k: nat)
    requires n < Pow10(k) && k > 0
    ensures |Printed(n)| <= k
  {
    if n >= 10 {
      assert k > 1;
      PrintedLength(n / 10, k - 1);
      assert Printed(n) == Printed(n / 10) + [DigitChar(n % 10)];
    }
  }

  function Pow10(k: nat): nat {
    if k == 0 then 1 else 10 * Pow10(k - 1)
  }

  // ----------------------------------------------------------------- stream

  /** What is left of the input, and whether its end was met or an extraction failed. */
  datatype Stream = Stream(rest: string, eof: bool, fail: bool)

  /** How many characters come before the delimiter, at most n. */
  function Span(s: string, n: nat, delim: char): (k: nat)
    ensures k <= n && k <= |s| && (k < n && k < |s| ==> s[k] == delim)
  {
    SpanFrom(s, 0, n, delim)
  }

  function SpanFrom(s: string, i: nat, n: nat, delim: char): (k: nat)
    requires i <= n && i <= |s|
    ensures i <= k <= n && k <= |s| && (k < n && k < |s| ==> s[k] == delim)
    decreases |s| - i
  {
    if i == n || i == |s| || s[i] == delim then i else SpanFrom(s, i + 1, n, delim)
  }

  /** There is no delimiter among the characters counted. */
  lemma {:induction false} SpanSkips(s: string, i: nat, n: nat, delim: char, j: nat)
    requires i <= n && i <= |s| && i <= j < SpanFrom(s, i, n, delim)
    ensures s[j] != delim
    decreases j - i
  {
    if i < j { SpanSkips(s, i + 1, n, delim, j); }
  }

  lemma SpanIs(s: string, n: nat, delim: char, k: nat)
    requires k <= n && k <= |s| && (k < n && k < |s| ==> s[k] == delim)
    requires forall j | 0 <= j < k :: s[j] != delim
    ensures Span(s, n, delim) == k
  {
    if k < Span(s, n, delim) { SpanSkips(s, 0, n, delim, k); }
  }

  /** Extracts up to n - 1 characters before the delimiter; none is a failure. */
  function Get(s: Stream, n: nat, delim: char): (r: (Stream, string))
    requires n > 0
    ensures |r.0.rest| + |r.1| == |s.rest| && (r.1 == "" ==> r.0.fail)
  {
    if s.eof || s.fail then (s.(fail := true), "")
    else
      var k := Span(s.rest, n - 1, delim);
      (Stream(s.rest[k..], k < n - 1 && k == |s.rest|, k == 0), s.rest[..k])
  }

  /** Drops up to n characters, up to and with the delimiter. */
  function Ignore(s: Stream, n: nat, delim: char): (r: Stream)
    ensures |r.rest| <= |s.rest|
  {
    if s.eof || s.fail then s.(fail := true)
    else
      var k := Span(s.rest, n, delim);
      if k == n then s.(rest := s.rest[k..])
      else if k == |s.rest| then Stream("", true, false)
      else s.(rest := s.rest[k + 1..])
  }

  /** Extracts a line of less than n characters and its end. */
  function GetLine(s: Stream, n: nat): (r: (Stream, string))
    requires n > 0
    ensures |r.0.rest| <= |s.rest|
  {
    if s.eof || s.fail then (s.(fail := true), "")
    else
      var k := Span(s.rest, n - 1, '\n');
      if k == |s.rest| then (Stream("", true, k == 0), s.rest)
      else if s.rest[k] == '\n' then (s.(rest := s.rest[k + 1..]), s.rest[..k])
      else (Stream(s.rest[k..], false, true), s.rest[..k])
  }

  // ---------------------------------------------------------------- metadata

  function Line(key: string, n: nat): string {
    key + " " + Printed(n) + "\n"
  }

  function EncodeMetadata(m: Metadata): string {
    Line("version:", m.version) + Line("atime:", m.atime) + Line("mtime:", m.mtime)
  }

  /** One known key sets its attribute, the version cut to 32 bits. Keys are compared as
      C strings. */
  function Assigned(m: Metadata, key: string, value: string): Metadata {
    var k := CStr(key);
    if k == "version:" then m.(version := Strtoull(value) % TWO32)
    else if k == "atime:" then m.(atime := Strtoull(value))
    else if k == "mtime:" then m.(mtime := Strtoull(value))
    else m
  }

  /** The stream after one round of the loop, which the attributes have no part in. The
      end of the input, met when the key is read, leaves the loop; nothing else does. */
  function NextStream(s: Stream): Stream {
    var s1 := Get(s, 128, ' ').0;
    if s1.eof then s1 else GetLine(Ignore(s1, 32, ' '), 1024).0
  }

  /** The stream after n rounds, or when the loop ended before. */
  function Streams(s: Stream, n: nat): Stream
    decreases n
  {
    if n == 0 || s.eof then s else Streams(NextStream(s), n - 1)
  }

  /** What the loop makes of the attributes; None when it does not end. */
  function Decoded(s: Stream, m: Metadata): Option<Metadata>
    decreases |s.rest|
  {
    if s.eof then Some(m)
    else
      var (s1, key) := Get(s, 128, ' ');
      if s1.eof then Some(m)
      else if s1.fail then None
      else
        var (s2, value) := GetLine(Ignore(s1, 32, ' '), 1024);
        Decoded(s2, Assigned(m, key, value))
  }

  /** The loop of the decoder, left as soon as the stream has failed for good. */
  method DecodeMetadata(data: string, meta: Metadata) returns (r: Option<Metadata>)
    ensures r == Decoded(Stream(data, false, false), meta)
    ensures r.Some? <==> Ends(data)
  {
    DecodesIff(data, meta);
    var s, m := Stream(data, false, false), meta;
    while !s.eof
      invariant Decoded(s, m) == Decoded(Stream(data, false, false), meta)
      decreases |s.rest|
    {
      var (s1, key) := Get(s, 128, ' ');
      if s1.eof { return Some(m); }
      if s1.fail { return None; }
      var (s2, value) := GetLine(Ignore(s1, 32, ' '), 1024);
      s, m := s2, Assigned(m, key, value);
    }
    r := Some(m);
  }

  // ------------------------------------------------------------ termination

  /** What is left behind a part of a record: nothing when the text runs out in it, a
      text, or neither when the part cannot be extracted. */
  datatype Cut = RunsOut | Stuck | Rest(text: string)

  /** A key of up to 127 characters before a space, at least one. */
  function CutKey(text: string): Cut {
    var k := Span(text, 127, ' ');
    if k < 127 && k == |text| then RunsOut else if k == 0 then Stuck else Rest(text[k..])
  }

  /** Up to 32 characters, as far as the first space. */
  function CutGap(text: string): Cut {
    var k := Span(text, 32, ' ');
    if k == 32 then Rest(text[k..]) else if k == |text| then RunsOut else Rest(text[k + 1..])
  }

  /** A value of less than 1024 characters and the end of its line. */
  function CutValue(text: string): Cut {
    var k := Span(text, 1023, '\n');
    if k == |text| then RunsOut else if text[k] == '\n' then Rest(text[k + 1..]) else Stuck
  }

  function CutRecord(text: string): (c: Cut)
    ensures c.Rest? ==> |c.text| < |text|
  {
    match CutKey(text)
    case RunsOut => RunsOut
    case Stuck => Stuck
    case Rest(gap) =>
      match CutGap(gap)
      case RunsOut => RunsOut
      case Stuck => Stuck
      case Rest(value) => CutValue(value)
  }

  /** The texts on which the loop ends: record after record, until the text runs out. */
  predicate Ends(text: string)
    decreases |text|
  {
    match CutRecord(text)
    case RunsOut => true
    case Stuck => false
    case Rest(rest) => Ends(rest)
  }

  /** A failed stream gives nothing and stays as it is, and no attribute is set: the
      round leaves everything as it was, so the loop repeats it for ever. */
  lemma FailedStreamIsFixed(s: Stream, m: Metadata)
    requires s.fail && !s.eof
    ensures Get(s, 128, ' ') == (s, "") && Ignore(s, 32, ' ') == s && GetLine(s, 1024) == (s, "")
    ensures NextStream(s) == s && Assigned(m, "", "") == m
  {
  }

  lemma {:induction false} FailedForEver(s: Stream, n: nat)
    requires s.fail && !s.eof
    ensures Streams(s, n) == s
  {
    if n > 0 { FailedForEver(s, n - 1); }
  }

  /** The loop comes to the end of the input without a failure before. */
  predicate Finishes(s: Stream)
    decreases |s.rest|
  {
    s.eof ||
    var s1 := Get(s, 128, ' ').0;
    s1.eof || (!s1.fail && Finishes(NextStream(s)))
  }

  lemma {:induction false} DecodesIfFinishes(s: Stream, m: Metadata)
    ensures Decoded(s, m).Some? <==> Finishes(s)
    decreases |s.rest|
  {
    if !s.eof {
      var (s1, key) := Get(s, 128, ' ');
      if !s1.eof && !s1.fail {
        var (s2, value) := GetLine(Ignore(s1, 32, ' '), 1024);
        DecodesIfFinishes(s2, Assigned(m, key, value));
      }
    }
  }

  lemma {:induction false} FinishesAtEnd(s: Stream) returns (n: nat)
    requires Finishes(s)
    ensures Streams(s, n).eof
    decreases |s.rest|
  {
    n := 0;
    if !s.eof {
      if Get(s, 128, ' ').0.eof {
        assert Streams(s, 1) == Streams(NextStream(s), 0);
      } else {
        n := FinishesAtEnd(NextStream(s));
      }
      n := n + 1;
    }
  }

  lemma StillNotFinishing(s: Stream)
    requires !Finishes(s)
    ensures !s.eof && !Finishes(NextStream(s))
  {
    var s1 := Get(s, 128, ' ').0;
    if s1.fail {
      FailedNext(s);
      FailedFinishesNot(s1);
    }
  }

  lemma FailedNext(s: Stream)
    requires var s1 := Get(s, 128, ' ').0; s1.fail && !s1.eof
    ensures NextStream(s) == Get(s, 128, ' ').0
  {
  }

  lemma FailedFinishesNot(s: Stream)
    requires s.fail && !s.eof
    ensures !Finishes(s)
  {
  }

  lemma {:induction false} NeverEnds(s: Stream, n: nat)
    requires !Finishes(s)
    ensures !Streams(s, n).eof
    decreases n
  {
    StillNotFinishing(s);
    if n > 0 { NeverEnds(NextStream(s), n - 1); }
  }

  lemma KeyRead(text: string)
    ensures Get(Stream(text, false, false), 128, ' ').0 ==
            match CutKey(text)
            case RunsOut => Stream("", true, text == "")
            case Stuck => Stream(text, false, true)
            case Rest(gap) => Stream(gap, false, false)
  {
    var k := Span(text, 127, ' ');
    assert text[0..] == text && text[|text|..] == "";
  }

  lemma GapRead(text: string)
    ensures Ignore(Stream(text, false, false), 32, ' ') ==
            match CutGap(text)
            case RunsOut => Stream("", true, false)
            case Stuck => Stream("", true, false)
            case Rest(value) => Stream(value, false, false)
  {
  }

  lemma ValueRead(text: string)
    ensures var s := GetLine(Stream(text, false, false), 1024).0;
            match CutValue(text)
            case RunsOut => s.eof
            case Stuck => s.fail && !s.eof
            case Rest(rest) => s == Stream(rest, false, false)
  {
  }

  lemma RecordRead(text: string)
    ensures var s := NextStream(Stream(text, false, false));
            match CutRecord(text)
            case RunsOut => s.eof
            case Stuck => s.fail && !s.eof
            case Rest(rest) => s == Stream(rest, false, false)
  {
    KeyRead(text);
    match CutKey(text)
    case RunsOut =>
    case Stuck => FailedStreamIsFixed(Stream(text, false, true), Metadata(0, 0, 0));
    case Rest(gap) =>
      GapRead(gap);
      if CutGap(gap).Rest? { ValueRead(CutGap(gap).text); }
  }

  /** Finishing depends on the stream after one round alone. */
  lemma FinishesNext(s: Stream)
    requires !s.eof
    ensures Finishes(s) <==> Finishes(NextStream(s))
  {
    if !Finishes(s) { StillNotFinishing(s); }
  }

  lemma {:induction false} FinishesIff(text: string)
    ensures Finishes(Stream(text, false, false)) <==> Ends(text)
    decreases |text|
  {
    FinishesNext(Stream(text, false, false));
    RecordRead(text);
    match CutRecord(text)
    case RunsOut =>
    case Stuck => FailedFinishesNot(NextStream(Stream(text, false, false)));
    case Rest(rest) => FinishesIff(rest);
  }

  /** There is a result exactly on the texts of this form, whatever the attributes. */
  lemma DecodesIff(text: string, m: Metadata)
    ensures Decoded(Stream(text, false, false), m).Some? <==> Ends(text)
  {
    DecodesIfFinishes(Stream(text, false, false), m);
    FinishesIff(text);
  }

  /** The loop comes to its end after some number of rounds exactly on these texts. */
  lemma LoopEndsIff(text: string)
    ensures (exists n: nat :: Streams(Stream(text, false, false), n).eof) <==> Ends(text)
  {
    var s := Stream(text, false, false);
    FinishesIff(text);
    if Ends(text) {
      var n := FinishesAtEnd(s);
    } else {
      forall n: nat ensures !Streams(s, n).eof { NeverEnds(s, n); }
    }
  }

  /** A text with a record that begins with a space. */
  predicate SpaceFirst(text: string)
    decreases |text|
  {
    text != "" &&
    (text[0] == ' ' ||
     var k := Span(text, |text|, ' ');
     k < |text| &&
     var v := Span(text[k + 1..], |text|, '\n');
     v < |text[k + 1..]| && SpaceFirst(text[k + 1..][v + 1..]))
  }

  lemma SpanEnough(s: string, n: nat, m: nat, delim: char)
    requires n >= |s| && m >= |s|
    ensures Span(s, n, delim) == Span(s, m, delim)
  {
    var k := Span(s, m, delim);
    forall j | 0 <= j < k ensures s[j] != delim { SpanSkips(s, 0, m, delim, j); }
    SpanIs(s, n, delim, k);
  }

  /** What a short record is: all that matters are its first space and the next newline. */
  lemma ShortRecord(text: string)
    requires 0 < |text| < 127
    ensures text[0] == ' ' ==> CutRecord(text) == Stuck
    ensures text[0] != ' ' ==>
              var k := Span(text, |text|, ' ');
              if k == |text| then CutRecord(text) == RunsOut
              else
                var v := Span(text[k + 1..], |text|, '\n');
                CutRecord(text) == if v == |text[k + 1..]| then RunsOut else Rest(text[k + 1..][v + 1..])
  {
    var k := Span(text, 127, ' ');
    SpanEnough(text, 127, |text|, ' ');
    if 0 < k < |text| {
      assert text[k..][0] == ' ' && text[k..][1..] == text[k + 1..];
      SpanEnough(text[k + 1..], 1023, |text|, '\n');
    }
  }

  /** Short texts, the encoded ones among them, are decoded unless a record begins with a
      space. A single space is such a text. */
  lemma {:induction false} ShortEndsIff(text: string)
    requires |text| < 127
    ensures Ends(text) <==> !SpaceFirst(text)
    decreases |text|
  {
    if text != "" {
      ShortRecord(text);
      if CutRecord(text).Rest? { ShortEndsIff(CutRecord(text).text); }
    }
  }

  lemma SpaceIsEndless(m: Metadata)
    ensures Decoded(Stream(" ", false, false), m) == None
    ensures forall n: nat :: !Streams(Stream(" ", false, false), n).eof
  {
    forall n: nat ensures !Streams(Stream(" ", false, false), n).eof { NeverEnds(Stream(" ", false, false), n); }
  }

  // -------------------------------------------------------------- round trip

  lemma SpanTo(a: string, delim: char, b: string, n: nat)
    requires delim !in a
    ensures Span(a + [delim] + b, n, delim) == if |a| < n then |a| else n
  {
    var s := a + [delim] + b;
    assert s[|a|] == delim;
    assert forall i | 0 <= i < |a| :: s[i] == a[i] && a[i] in a;
    SpanIs(s, n, delim, if |a| < n then |a| else n);
  }

  lemma GetTo(a: string, delim: char, b: string, n: nat)
    requires a != "" && delim !in a && |a| <= n - 1
    ensures Get(Stream(a + [delim] + b, false, false), n, delim) == (Stream([delim] + b, false, false), a)
  {
    SpanTo(a, delim, b, n - 1);
    var s := a + [delim] + b;
    assert s[|a|..] == [delim] + b && s[..|a|] == a;
  }

  lemma GetLineTo(a: string, b: string, n: nat)
    requires '\n' !in a && |a| <= n - 1
    ensures GetLine(Stream(a + ['\n'] + b, false, false), n) == (Stream(b, false, false), a)
  {
    SpanTo(a, '\n', b, n - 1);
    var s := a + ['\n'] + b;
    assert s[..|a|] == a && s[|a| + 1..] == b;
  }

  /** Reading one line. */
  lemma LineRead(key: string, value: string, rest: string, m: Metadata)
    requires key != "" && |key| <= 127 && ' ' !in key && '\n' !in value && |value| <= 1023
    ensures Decoded(Stream(key + [' '] + (value + ['\n'] + rest), false, false), m) ==
            Decoded(Stream(rest, false, false), Assigned(m, key, value))
  {
    var after := value + ['\n'] + rest;
    GetTo(key, ' ', after, 128);
    GetLineTo(value, rest, 1024);
  }

  /** The sizes of the buffers: a single record with a key of up to 158 characters, of which
      127 are read and 31 skipped, is decoded exactly if its value has at most 1023. */
  lemma RecordLimits(key: string, value: string)
    requires 1 <= |key| <= 158 && ' ' !in key && '\n' !in value
    ensures Ends(key + [' '] + (value + ['\n'])) <==> |value| <= 1023
  {
    var line := value + ['\n'];
    var text := key + [' '] + line;
    var k := if |key| < 127 then |key| else 127;
    KeyCut(key, line, k);
    GapCut(key[k..], line);
    ValueCut(value);
    assert CutRecord(text) == CutValue(line);
    assert Ends("");
  }

  lemma KeyCut(key: string, line: string, k: nat)
    requires key != "" && ' ' !in key && k == if |key| < 127 then |key| else 127
    ensures CutKey(key + [' '] + line) == Rest(key[k..] + [' '] + line)
  {
    SpanTo(key, ' ', line, 127);
    assert (key + [' '] + line)[k..] == key[k..] + [' '] + line;
  }

  lemma GapCut(gap: string, line: string)
    requires |gap| < 32 && ' ' !in gap
    ensures CutGap(gap + [' '] + line) == Rest(line)
  {
    SpanTo(gap, ' ', line, 32);
    assert (gap + [' '] + line)[|gap| + 1..] == line;
  }

  lemma ValueCut(value: string)
    requires '\n' !in value
    ensures CutValue(value + ['\n']) == if |value| <= 1023 then Rest("") else Stuck
  {
    var line := value + ['\n'];
    assert line == value + ['\n'] + "";
    SpanTo(value, '\n', "", 1023);
    if |value| <= 1023 {
      assert line[|value| + 1..] == "";
    } else {
      assert line[1023] == value[1023] && value[1023] in value;
    }
  }

  lemma NumberFits(n: nat)
    requires n < TWO64
    ensures '\n' !in Printed(n) && |Printed(n)| <= 20
  {
    TwentyDigits();
    PrintedLength(n, 20);
  }

  /** Reading one line that was written. */
  lemma LineUndone(key: string, n: nat, rest: string, m: Metadata)
    requires key != "" && |key| < 127 && ' ' !in key && n < TWO64
    ensures Decoded(Stream(Line(key, n) + rest, false, false), m) ==
            Decoded(Stream(rest, false, false), Assigned(m, key, Printed(n)))
  {
    var value := Printed(n);
    NumberFits(n);
    LineParts(key, value, rest);
    LineRead(key, value, rest, m);
  }

  lemma LineParts(key: string, value: string, rest: string)
    ensures key + " " + value + "\n" + rest == key + [' '] + (value + ['\n'] + rest)
  {
  }

  lemma TwentyDigits()
    ensures Pow10(20) == 100000000000000000000
  {
    assert Pow10(10) == 10000000000;
  }

  lemma KnownKeys(m: Metadata, value: string)
    ensures Assigned(m, "version:", value) == m.(version := Strtoull(value) % 0x1_0000_0000)
    ensures Assigned(m, "atime:", value) == m.(atime := Strtoull(value))
    ensures Assigned(m, "mtime:", value) == m.(mtime := Strtoull(value))
  {
    CStrNulFree("version:");
    CStrNulFree("atime:");
    CStrNulFree("mtime:");
  }

  lemma SmallRemainder(n: nat)
    requires n < TWO32
    ensures n % TWO32 == n
  {
  }

  lemma VersionRead(n: nat, rest: string, m: Metadata)
    requires n < TWO32
    ensures Decoded(Stream(Line("version:", n) + rest, false, false), m) ==
            Decoded(Stream(rest, false, false), m.(version := n))
  {
    LineUndone("version:", n, rest, m);
    ParseUndoesPrint(n);
    KnownKeys(m, Printed(n));
    SmallRemainder(n);
  }

  lemma AtimeRead(n: nat, rest: string, m: Metadata)
    requires n < TWO64
    ensures Decoded(Stream(Line("atime:", n) + rest, false, false), m) ==
            Decoded(Stream(rest, false, false), m.(atime := n))
  {
    LineUndone("atime:", n, rest, m);
    ParseUndoesPrint(n);
    KnownKeys(m, Printed(n));
  }

  lemma MtimeRead(n: nat, rest: string, m: Metadata)
    requires n < TWO64
    ensures Decoded(Stream(Line("mtime:", n) + rest, false, false), m) ==
            Decoded(Stream(rest, false, false), m.(mtime := n))
  {
    LineUndone("mtime:", n, rest, m);
    ParseUndoesPrint(n);
    KnownKeys(m, Printed(n));
  }

  /** Decoding gives back what was encoded, whatever the attributes were before. */
  lemma DecodeUndoesEncode(m: Metadata, before: Metadata)
    requires InRange(m)
    ensures Decoded(Stream(EncodeMetadata(m), false, false), before) == Some(m)
  {
    var a, t := Line("atime:", m.atime), Line("mtime:", m.mtime);
    assert EncodeMetadata(m) == Line("version:", m.version) + (a + t);
    assert t == t + "";
    VersionRead(m.version, a + t, before);
    AtimeRead(m.atime, t, before.(version := m.version));
    MtimeRead(m.mtime, "", before.(version := m.version, atime := m.atime));
  }

  /** The text itself, on an example. */
  lemma EncodedText()
    ensures EncodeMetadata(Metadata(1, 29, 345)) == "version: 1\n" + "atime: 29\n" + "mtime: 345\n"
  {
    PrintedExamples();
    LineText("version:", 1, "version: 1\n", "1");
    LineText("atime:", 29, "atime: 29\n", "29");
    LineText("mtime:", 345, "mtime: 345\n", "345");
  }

  lemma LineText(key: string, n: nat, text: string, digits: string)
    requires Printed(n) == digits && text == key + " " + digits + "\n"
    ensures Line(key, n) == text
  {
  }

  lemma PrintedExamples()
    ensures Printed(1) == "1" && Printed(29) == "29" && Printed(345) == "345"
  {
    assert Numeral(29, 10) == Numeral(2, 10) + [DigitChar(9)];
    assert Numeral(34, 10) == Numeral(3, 10) + [DigitChar(4)];
    assert Numeral(345, 10) == Numeral(34, 10) + [DigitChar(5)];
  }
}
