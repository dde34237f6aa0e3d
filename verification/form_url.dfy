/**
 * `java.net.URLEncoder.encode(s, enc)` and `java.net.URLDecoder.decode(s, enc)`:
 * the application/x-www-form-urlencoded format of section 17.13.4.1 of HTML 4.01,
 * which DocId applies to each '/'-separated piece of an identifier.
 *
 * The encoder leaves letters, digits and ". - * _" alone, turns a space into '+',
 * and converts every maximal run of other characters through the charset into
 * bytes written as "%XX" with upper-case hex digits. The decoder turns '+' into a
 * space, collects every maximal run of "%XX" escapes into bytes that it converts
 * back through the charset, and copies any other character.
 */
module FormUrl {
  import opened Jdk

  type Byte = x: int | 0 <= x < 256

  /**
   * A character set as the two classes use it. Both directions are total, as in
   * Java, where characters a charset cannot map are replaced rather than rejected.
   */
  datatype Charset = Charset(encode: string -> seq<Byte>, decode: seq<Byte> -> string)

  /** The charset can represent every string, and turns the empty string into no bytes. */
  ghost predicate Faithful(cs: Charset)
  {
    && cs.encode([]) == []
    && forall s :: cs.decode(cs.encode(s)) == s
  }

  /** The characters the encoder does not escape (a space still becomes '+'). */
  predicate Unreserved(c: char)
  {
    || 'a' <= c <= 'z' || 'A' <= c <= 'Z' || '0' <= c <= '9'
    || c == '-' || c == '_' || c == '.' || c == '*' || c == ' '
  }

  /** The characters an encoded string is made of. */
  predicate FormChar(c: char)
  {
    (Unreserved(c) && c != ' ') || c == '+' || c == '%'
  }

  predicate IsHexDigit(c: char)
  {
    '0' <= c <= '9' || 'a' <= c <= 'f' || 'A' <= c <= 'F'
  }

  /** The upper-case hex digit the encoder writes for `d`. */
  function HexDigit(d: int): (c: char)
    requires 0 <= d < 16
    ensures IsHexDigit(c) && Unreserved(c)
  {
    if d < 10 then ('0' as int + d) as char else ('A' as int + d - 10) as char
  }

  /** The value of a hex digit of either case, as `Integer.parseInt(_, 16)` reads it. */
  function HexValue(c: char): (d: int)
    requires IsHexDigit(c)
    ensures 0 <= d < 16
  {
    if '0' <= c <= '9' then c as int - '0' as int
    else if 'a' <= c <= 'f' then c as int - 'a' as int + 10
    else c as int - 'A' as int + 10
  }

  lemma HexValueOfHexDigit(d: int)
    requires 0 <= d < 16
    ensures HexValue(HexDigit(d)) == d
  {
  }

  /** The length of the leading run of characters that the encoder converts through the charset together. */
  function RunLength(s: string): (n: nat)
    ensures n <= |s|
    ensures s != [] && !Unreserved(s[0]) ==> n > 0
    ensures n < |s| ==> Unreserved(s[n])
  {
    if s == [] || Unreserved(s[0]) then 0 else 1 + RunLength(s[1..])
  }

  /** Every character of the run is one the encoder escapes, so the run is maximal. */
  lemma {:induction false} RunLengthAllReserved(s: string)
    ensures forall i :: 0 <= i < RunLength(s) ==> !Unreserved(s[i])
    decreases |s|
  {
    if s != [] && !Unreserved(s[0]) {
      RunLengthAllReserved(s[1..]);
      assert forall i :: 1 <= i < RunLength(s) ==> s[i] == s[1..][i - 1];
    }
  }

  /** One byte written as '%' and two upper-case hex digits, which read back as the byte. */
  function EscapeByte(b: Byte): (e: string)
    ensures |e| == 3 && e[0] == '%'
    ensures IsHexDigit(e[1]) && IsHexDigit(e[2]) && 16 * HexValue(e[1]) + HexValue(e[2]) == b
  {
    HexValueOfHexDigit(b / 16);
    HexValueOfHexDigit(b % 16);
    ['%', HexDigit(b / 16), HexDigit(b % 16)]
  }

  /** Each byte escaped in turn. */
  function Escape(bs: seq<Byte>): (t: string)
    ensures |t| == 3 * |bs|
    ensures bs != [] ==> t[0] == '%'
  {
    if bs == [] then []
    else EscapeByte(bs[0]) + Escape(bs[1..])
  }

  /** `URLEncoder.encode(s, enc)`, with `cs` the charset named by `enc`. */
  function Encode(s: string, cs: Charset): (t: string)
    ensures s != [] && Unreserved(s[0]) ==> t != [] && t[0] == (if s[0] == ' ' then '+' else s[0])
    ensures s != [] && Unreserved(s[0]) ==> t[0] != '%'
    decreases |s|
  {
    if s == [] then []
    else if Unreserved(s[0]) then [if s[0] == ' ' then '+' else s[0]] + Encode(s[1..], cs)
    else
      var n := RunLength(s);
      Escape(cs.encode(s[..n])) + Encode(s[n..], cs)
  }

  /** Escapes are made of '%' and hex digits only. */
  lemma {:induction false} EscapeFormChars(bs: seq<Byte>)
    ensures forall i :: 0 <= i < |Escape(bs)| ==> FormChar(Escape(bs)[i])
    decreases |bs|
  {
    if bs != [] {
      EscapeFormChars(bs[1..]);
      var head := EscapeByte(bs[0]);
      assert head == ['%', HexDigit(bs[0] / 16), HexDigit(bs[0] % 16)];
      assert Escape(bs) == head + Escape(bs[1..]);
    }
  }

  /**
   * An encoded string holds only letters, digits, "-_.*", '+' and '%'; in
   * particular it never holds the '/' that separates the pieces of an identifier.
   */
  lemma {:induction false} EncodeFormChars(s: string, cs: Charset)
    ensures forall i :: 0 <= i < |Encode(s, cs)| ==> FormChar(Encode(s, cs)[i])
    decreases |s|
  {
    if s != [] {
      if Unreserved(s[0]) {
        EncodeFormChars(s[1..], cs);
        var c := if s[0] == ' ' then '+' else s[0];
        assert Encode(s, cs) == [c] + Encode(s[1..], cs);
      } else {
        var n := RunLength(s);
        EscapeFormChars(cs.encode(s[..n]));
        EncodeFormChars(s[n..], cs);
        assert Encode(s, cs) == Escape(cs.encode(s[..n])) + Encode(s[n..], cs);
      }
    }
  }

  /**
   * The bytes of the maximal run of "%XX" escapes at the start of `t`, as the
   * inner loop of `URLDecoder.decode` collects them: an escape needs two more
   * characters, both hex digits; a '%' without two characters after it is an
   * incomplete trailing escape.
   */
  function Unescape(t: string): (r: Result<seq<Byte>>)
    ensures r.Success? ==> 3 * |r.value| <= |t|
    ensures r.Success? && t != [] && t[0] == '%' ==> |r.value| > 0
    ensures t == [] || t[0] != '%' ==> r == Success([])
    ensures t != [] && t[0] == '%' && |t| < 3 ==> r.Failure?
    ensures |t| >= 3 && t[0] == '%' && !(IsHexDigit(t[1]) && IsHexDigit(t[2])) ==> r.Failure?
    ensures r.Failure? ==> r.error.IllegalArgument?
    decreases |t|
  {
    if |t| >= 3 && t[0] == '%' then
      if IsHexDigit(t[1]) && IsHexDigit(t[2]) then
        match Unescape(t[3..])
        case Success(rest) => Success([16 * HexValue(t[1]) + HexValue(t[2])] + rest)
        case Failure(e) => Failure(e)
      else
        Result<seq<Byte>>.Failure(IllegalArgument("URLDecoder: Illegal hex characters in escape (%) pattern"))
    else if t != [] && t[0] == '%' then
      Result<seq<Byte>>.Failure(IllegalArgument("URLDecoder: Incomplete trailing escape (%) pattern"))
    else
      Success([])
  }

  /** `URLDecoder.decode(t, enc)`, with `cs` the charset named by `enc`. */
  function Decode(t: string, cs: Charset): (r: Result<string>)
    ensures r.Success? && t != [] && t[0] != '%' ==> r.value != [] && r.value[0] == (if t[0] == '+' then ' ' else t[0])
    decreases |t|
  {
    if t == [] then Success([])
    else if t[0] == '%' then
      match Unescape(t)
      case Failure(e) => Failure(e)
      case Success(bs) =>
        match Decode(t[3 * |bs|..], cs)
        case Success(rest) => Success(cs.decode(bs) + rest)
        case Failure(e) => Failure(e)
    else
      assert t == [t[0]] + t[1..];
      match Decode(t[1..], cs)
      case Success(rest) => Success([if t[0] == '+' then ' ' else t[0]] + rest)
      case Failure(e) => Failure(e)
  }

  /** Text without '%' or '+' decodes to itself, whatever the charset. */
  lemma {:induction false} DecodePlain(t: string, cs: Charset)
    requires forall i :: 0 <= i < |t| ==> t[i] != '%' && t[i] != '+'
    ensures Decode(t, cs) == Success(t)
    decreases |t|
  {
    if t != [] {
      assert forall i :: 0 <= i < |t[1..]| ==> t[1..][i] == t[i + 1];
      DecodePlain(t[1..], cs);
      assert [t[0]] + t[1..] == t;
    }
  }

  /** Escaped bytes read back as the same bytes, whatever follows that is not another escape. */
  lemma {:induction false} UnescapeEscape(bs: seq<Byte>, rest: string)
    requires rest == [] || rest[0] != '%'
    ensures Unescape(Escape(bs) + rest) == Success(bs)
    decreases |bs|
  {
    if bs == [] {
      assert Escape(bs) + rest == rest;
    } else {
      UnescapeEscape(bs[1..], rest);
      UnescapeEscapeStep(bs, rest);
    }
  }

  /** The inductive step of `UnescapeEscape`: the first byte's escape reads back as that byte. */
  lemma UnescapeEscapeStep(bs: seq<Byte>, rest: string)
    requires bs != []
    requires Unescape(Escape(bs[1..]) + rest) == Success(bs[1..])
    ensures Unescape(Escape(bs) + rest) == Success(bs)
  {
    var e := EscapeByte(bs[0]);
    EscapeFirst(bs, rest);
    assert bs == [bs[0]] + bs[1..];
    UnescapeOne(Escape(bs) + rest, e[1], e[2], Escape(bs[1..]) + rest, bs[0], bs[1..]);
  }

  /** Escaped bytes followed by more text start with the first byte's escape. */
  lemma EscapeFirst(bs: seq<Byte>, rest: string)
    requires bs != []
    ensures var e := EscapeByte(bs[0]);
      Escape(bs) + rest == ['%', e[1], e[2]] + (Escape(bs[1..]) + rest)
  {
    var e, tail := EscapeByte(bs[0]), Escape(bs[1..]);
    assert e == ['%', e[1], e[2]];
    assert Escape(bs) == e + tail;
    AppendAssociative(e, tail, rest);
  }

  /** Concatenation is associative. */
  lemma AppendAssociative(a: string, b: string, c: string)
    ensures (a + b) + c == a + (b + c)
  {
  }

  /** A string is its first `n` characters followed by the rest. */
  lemma TakeDrop(s: string, n: nat)
    requires n <= |s|
    ensures s[..n] + s[n..] == s
  {
  }

  /** One well-formed escape in front of a run of escapes adds its byte in front of the run's bytes. */
  lemma UnescapeOne(t: string, hi: char, lo: char, after: string, b: Byte, bytes: seq<Byte>)
    requires t == ['%', hi, lo] + after
    requires IsHexDigit(hi) && IsHexDigit(lo) && 16 * HexValue(hi) + HexValue(lo) == b
    requires Unescape(after) == Success(bytes)
    ensures Unescape(t) == Success([b] + bytes)
  {
    assert t[0] == '%' && t[1] == hi && t[2] == lo && t[3..] == after;
  }

  /** A faithful charset never encodes a non-empty run as no bytes. */
  lemma NonEmptyRunHasBytes(cs: Charset, run: string)
    requires Faithful(cs)
    requires run != []
    ensures cs.encode(run) != []
  {
    assert cs.decode(cs.encode([])) == [];
    assert cs.decode(cs.encode(run)) == run;
  }

  /** The case of `DecodeEncode` where `s` starts with a character the encoder keeps. */
  lemma DecodeEncodeUnreserved(s: string, cs: Charset)
    requires s != [] && Unreserved(s[0])
    requires Decode(Encode(s[1..], cs), cs) == Success(s[1..])
    ensures Decode(Encode(s, cs), cs) == Success(s)
  {
    var c := s[0];
    var e := if c == ' ' then '+' else c;
    var rest := Encode(s[1..], cs);
    var t := [e] + rest;
    assert Encode(s, cs) == t;
    assert t[0] == e && t[0] != '%';
    assert t[1..] == rest;
    assert Decode(t, cs) == Success([if e == '+' then ' ' else e] + s[1..]);
    assert [c] + s[1..] == s;
  }

  /** A run of escapes decodes through the charset, and decoding carries on after it. */
  lemma DecodeEscaped(bs: seq<Byte>, tail: string, cs: Charset)
    requires bs != []
    requires tail == [] || tail[0] != '%'
    requires Decode(tail, cs).Success?
    ensures Decode(Escape(bs) + tail, cs) == Success(cs.decode(bs) + Decode(tail, cs).value)
  {
    var t := Escape(bs) + tail;
    UnescapeEscape(bs, tail);
    assert t[0] == '%';
    assert t[3 * |bs|..] == tail;
  }

  /** The case of `DecodeEncode` where `s` starts with a run of characters the encoder escapes. */
  lemma DecodeEncodeRun(s: string, cs: Charset)
    requires Faithful(cs)
    requires s != [] && !Unreserved(s[0])
    requires Decode(Encode(s[RunLength(s)..], cs), cs) == Success(s[RunLength(s)..])
    ensures Decode(Encode(s, cs), cs) == Success(s)
  {
    var n := RunLength(s);
    var run, rest := s[..n], s[n..];
    NonEmptyRunHasBytes(cs, run);
    EncodeAfterRun(s, cs);
    DecodeRunThenRest(Encode(s, cs), cs.encode(run), Encode(rest, cs), run, rest, cs);
    TakeDrop(s, n);
  }

  /** Text made of a run of escapes and then a decodable tail decodes to the run's characters and the tail's. */
  lemma DecodeRunThenRest(t: string, bs: seq<Byte>, tail: string, run: string, rest: string, cs: Charset)
    requires bs != [] && t == Escape(bs) + tail
    requires tail == [] || tail[0] != '%'
    requires Decode(tail, cs) == Success(rest)
    requires cs.decode(bs) == run
    ensures Decode(t, cs) == Success(run + rest)
  {
    DecodeEscaped(bs, tail, cs);
  }

  /** The encoder writes a run as escapes, and what follows the run does not start with an escape. */
  lemma EncodeAfterRun(s: string, cs: Charset)
    requires s != [] && !Unreserved(s[0])
    ensures var n := RunLength(s);
      && Encode(s, cs) == Escape(cs.encode(s[..n])) + Encode(s[n..], cs)
      && (Encode(s[n..], cs) == [] || Encode(s[n..], cs)[0] != '%')
  {
    var n := RunLength(s);
    var rest := s[n..];
    if rest != [] {
      assert rest[0] == s[n];
    }
  }

  /** Decoding what the encoder produced gives back the original string. */
  lemma {:induction false} DecodeEncode(s: string, cs: Charset)
    requires Faithful(cs)
    ensures Decode(Encode(s, cs), cs) == Success(s)
    decreases |s|
  {
    if s == [] {
    } else if Unreserved(s[0]) {
      DecodeEncode(s[1..], cs);
      DecodeEncodeUnreserved(s, cs);
    } else {
      DecodeEncode(s[RunLength(s)..], cs);
      DecodeEncodeRun(s, cs);
    }
  }
}
