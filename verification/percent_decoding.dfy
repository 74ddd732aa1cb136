/**
  `SironaAgent.decode`: percent-decoding of the agent jar's file path.

  Each maximal run of `%XY` escapes is collected into a byte buffer, and the buffer is
  turned into text by the platform's default charset; every other character is copied
  as it is. The charset conversion is outside the model and is the parameter `toText`.
*/
module PercentDecoding {
  import opened Outcomes

  /** An octet written to the byte buffer. */
  type Byte = x: int | 0 <= x < 256

  /** The two `IllegalArgumentException`s, each with the index of the offending '%'. */
  datatype DecodeError =
    | Incomplete(at: nat)
    | Invalid(at: nat, sequence: string)

  /**
    `Character.digit(c, 16)`, with `None` for -1: the ASCII digits and letters a-f, A-F,
    and their fullwidth forms.
  */
  function HexValue(c: char): (r: Option<nat>)
    ensures r.Some? ==> r.value < 16 && c != '%'
    ensures ('0' <= c <= '9' || 'a' <= c <= 'f' || 'A' <= c <= 'F') ==> r.Some?
    ensures r.Some? && c < '\U{FF10}' ==> '0' <= c <= '9' || 'a' <= c <= 'f' || 'A' <= c <= 'F'
  {
    if '0' <= c <= '9' then Some(c as int - '0' as int)
    else if 'a' <= c <= 'f' then Some(c as int - 'a' as int + 10)
    else if 'A' <= c <= 'F' then Some(c as int - 'A' as int + 10)
    else if '\U{FF10}' <= c <= '\U{FF19}' then Some(c as int - 0xFF10)
    else if '\U{FF21}' <= c <= '\U{FF26}' then Some(c as int - 0xFF21 + 10)
    else if '\U{FF41}' <= c <= '\U{FF46}' then Some(c as int - 0xFF41 + 10)
    else None
  }

  /** The hexadecimal digits by value, in lower and in upper case. */
  const LowerDigits: string := "0123456789abcdef"
  const UpperDigits: string := "0123456789ABCDEF"

  /** The fullwidth form (U+FF01..U+FF5E) of a printable ASCII character. */
  function Fullwidth(c: char): char
    requires '!' <= c <= '~'
  {
    (c as int + 0xFEE0) as char
  }

  /** The digit of value `v` in each table is `0`..`9`, then `a`..`f` or `A`..`F`. */
  lemma DigitTables(v: nat)
    requires v < 16
    ensures LowerDigits[v] as int == if v < 10 then '0' as int + v else 'a' as int + v - 10
    ensures UpperDigits[v] as int == if v < 10 then '0' as int + v else 'A' as int + v - 10
  {
  }

  /** Each digit of value `v`, in either case and either width, reads as `v`. */
  lemma DigitValues()
    ensures forall v :: 0 <= v < 16 ==>
      && HexValue(LowerDigits[v]) == Some(v)
      && HexValue(UpperDigits[v]) == Some(v)
      && HexValue(Fullwidth(LowerDigits[v])) == Some(v)
      && HexValue(Fullwidth(UpperDigits[v])) == Some(v)
  {
    forall v | 0 <= v < 16
      ensures && HexValue(LowerDigits[v]) == Some(v)
              && HexValue(UpperDigits[v]) == Some(v)
              && HexValue(Fullwidth(LowerDigits[v])) == Some(v)
              && HexValue(Fullwidth(UpperDigits[v])) == Some(v)
    {
      DigitTables(v);
    }
  }

  /** Every character `HexValue` accepts is the digit of its value in one of the four tables. */
  lemma AcceptedDigitsAreTheTables(c: char)
    requires HexValue(c).Some?
    ensures var v := HexValue(c).value;
      || c == LowerDigits[v] || c == UpperDigits[v]
      || c == Fullwidth(LowerDigits[v]) || c == Fullwidth(UpperDigits[v])
  {
    DigitTables(HexValue(c).value);
  }

  /** The '%' at index `i` is not followed by two hexadecimal digits. */
  predicate BadEscapeAt(s: string, i: int) {
    && 0 <= i < |s|
    && s[i] == '%'
    && (i + 2 >= |s| || HexValue(s[i + 1]).None? || HexValue(s[i + 2]).None?)
  }

  /** The exception `decode` throws for a bad '%' at index `i`. */
  function ErrorAt(s: string, i: nat): DecodeError
    requires i < |s|
  {
    if i + 2 >= |s| then Incomplete(i) else Invalid(i, s[i..i + 3])
  }

  /** One `%XY` escape as written: its two digit characters, in either case or width. */
  datatype Escape = Escape(hi: char, lo: char)

  /** Both digits of the escape are hexadecimal digits. */
  predicate ValidEscape(e: Escape) {
    HexValue(e.hi).Some? && HexValue(e.lo).Some?
  }

  /** The byte `(d1 << 4) + d2` an escape stands for; 0 for an invalid escape. */
  function ByteOf(e: Escape): Byte {
    match (HexValue(e.hi), HexValue(e.lo))
    case (Some(d1), Some(d2)) => 16 * d1 + d2
    case _ => 0
  }

  /** The byte of a well-formed escape at index `i`. */
  function EscapedByte(s: string, i: nat): Byte
    requires i + 2 < |s| && HexValue(s[i + 1]).Some? && HexValue(s[i + 2]).Some?
  {
    ByteOf(Escape(s[i + 1], s[i + 2]))
  }

  /** The bytes of a run of consecutive escapes and the index just after it. */
  datatype EscapeRun = EscapeRun(bytes: seq<Byte>, end: nat)

  /** `s` holds, from index `i` on, one well-formed `%XY` escape per byte of `bytes`, in order. */
  predicate EscapesAt(s: string, i: nat, bytes: seq<Byte>)
    decreases |bytes|
  {
    || |bytes| == 0
    || (&& i + 2 < |s|
        && s[i] == '%'
        && HexValue(s[i + 1]).Some? && HexValue(s[i + 2]).Some?
        && bytes[0] == EscapedByte(s, i)
        && EscapesAt(s, i + 3, bytes[1..]))
  }

  /**
    The inner do-while loop of `decode`: reads escapes starting at the '%' at index `i`
    for as long as the next character is again a '%'.
  */
  function ReadRun(s: string, i: nat): (r: Result<EscapeRun, DecodeError>)
    requires i < |s| && s[i] == '%'
    ensures r.Success? ==>
      && |r.value.bytes| > 0
      && r.value.end == i + 3 * |r.value.bytes| <= |s|
      && (r.value.end == |s| || s[r.value.end] != '%')
      && EscapesAt(s, i, r.value.bytes)
      && (forall j :: i <= j < r.value.end ==> !BadEscapeAt(s, j))
    ensures r.Failure? ==>
      && i <= r.error.at
      && BadEscapeAt(s, r.error.at)
      && r.error == ErrorAt(s, r.error.at)
      && (forall j :: i <= j < r.error.at ==> !BadEscapeAt(s, j))
    decreases |s| - i
  {
    if i + 2 >= |s| then Failure(Incomplete(i))
    else if HexValue(s[i + 1]).None? || HexValue(s[i + 2]).None? then Failure(Invalid(i, s[i..i + 3]))
    else
      var b := EscapedByte(s, i);
      assert !BadEscapeAt(s, i) && !BadEscapeAt(s, i + 1) && !BadEscapeAt(s, i + 2);
      if i + 3 < |s| && s[i + 3] == '%' then
        match ReadRun(s, i + 3)
        case Failure(e) => Failure(e)
        case Success(run) =>
          assert ([b] + run.bytes)[1..] == run.bytes;
          Success(EscapeRun([b] + run.bytes, run.end))
      else
        assert EscapesAt(s, i + 3, []);
        Success(EscapeRun([b], i + 3))
  }

  /**
    The outer loop of `decode` from index `i`: it fails exactly when some '%' at or after
    `i` lacks its two hexadecimal digits, and then reports the first such '%'.
  */
  function DecodeFrom(s: string, i: nat, toText: seq<Byte> -> string): (r: Result<string, DecodeError>)
    requires i <= |s|
    ensures r.Success? <==> forall j :: i <= j < |s| ==> !BadEscapeAt(s, j)
    ensures r.Failure? ==>
      && i <= r.error.at
      && BadEscapeAt(s, r.error.at)
      && r.error == ErrorAt(s, r.error.at)
      && (forall j :: i <= j < r.error.at ==> !BadEscapeAt(s, j))
    decreases |s| - i
  {
    if i == |s| then Success([])
    else if s[i] != '%' then
      match DecodeFrom(s, i + 1, toText)
      case Failure(e) => Failure(e)
      case Success(rest) => Success([s[i]] + rest)
    else
      match ReadRun(s, i)
      case Failure(e) => Failure(e)
      case Success(run) =>
        match DecodeFrom(s, run.end, toText)
        case Failure(e) => Failure(e)
        case Success(rest) => Success(toText(run.bytes) + rest)
  }

  /**
    `decode`: a path without '%' comes back unchanged; otherwise the path is decoded, and
    decoding fails exactly when some '%' is not followed by two hexadecimal digits, with
    the error of the first such '%'.
  */
  function Decode(s: string, toText: seq<Byte> -> string): (r: Result<string, DecodeError>)
    ensures '%' !in s ==> r == Success(s)
    ensures r.Success? <==> forall j :: 0 <= j < |s| ==> !BadEscapeAt(s, j)
    ensures r.Failure? ==>
      && BadEscapeAt(s, r.error.at)
      && r.error == ErrorAt(s, r.error.at)
      && (forall j :: 0 <= j < r.error.at ==> !BadEscapeAt(s, j))
  {
    if '%' !in s then Success(s) else DecodeFrom(s, 0, toText)
  }

  /** The early return of `decode` for paths without '%' agrees with its loop. */
  lemma {:induction false} NoPercentDecodesToItself(s: string, i: nat, toText: seq<Byte> -> string)
    requires i <= |s| && '%' !in s[i..]
    ensures DecodeFrom(s, i, toText) == Success(s[i..])
    decreases |s| - i
  {
    if i < |s| {
      assert s[i] == s[i..][0] && s[i] != '%';
      assert s[i + 1..] == s[i..][1..];
      NoPercentDecodesToItself(s, i + 1, toText);
      assert s[i..] == [s[i]] + s[i + 1..];
    } else {
      assert s[i..] == [];
    }
  }

  /** `decode` is its loop: the early return is only a shortcut. */
  lemma DecodeIsItsLoop(s: string, toText: seq<Byte> -> string)
    ensures Decode(s, toText) == DecodeFrom(s, 0, toText)
  {
    if '%' !in s {
      assert s[0..] == s;
      NoPercentDecodesToItself(s, 0, toText);
    }
  }

  // ---------------------------------------------------------------------------
  // The pieces of a path, for the round trip

  /** Every byte is read back from its two digits, whichever case each is written in. */
  lemma ByteOfDigits(b: Byte)
    ensures ByteOf(Escape(UpperDigits[b / 16], LowerDigits[b % 16])) == b
    ensures ByteOf(Escape(LowerDigits[b / 16], UpperDigits[b % 16])) == b
  {
    DigitTables(b / 16);
    DigitTables(b % 16);
  }

  /** The bytes of a run of escapes, in order. */
  function Bytes(es: seq<Escape>): (r: seq<Byte>)
    ensures |r| == |es| && forall k :: 0 <= k < |es| ==> r[k] == ByteOf(es[k])
  {
    seq(|es|, k requires 0 <= k < |es| => ByteOf(es[k]))
  }

  /** A run of escapes as text: `%`, then the two digits, for each escape. */
  function EscapeText(es: seq<Escape>): (r: string)
    ensures |r| == 3 * |es|
  {
    if |es| == 0 then []
    else ['%', es[0].hi, es[0].lo] + EscapeText(es[1..])
  }

  /** The text of valid escapes, wherever it stands, reads as one escape per byte of the run. */
  lemma {:induction false} EscapeTextReadsBack(pre: string, es: seq<Escape>, post: string)
    requires forall k :: 0 <= k < |es| ==> ValidEscape(es[k])
    ensures EscapesAt(pre + EscapeText(es) + post, |pre|, Bytes(es))
    decreases |es|
  {
    if |es| > 0 {
      var s := pre + EscapeText(es) + post;
      var pre' := pre + ['%', es[0].hi, es[0].lo];
      assert s == pre' + EscapeText(es[1..]) + post;
      EscapeTextReadsBack(pre', es[1..], post);
      assert s[|pre|] == '%' && s[|pre| + 1] == es[0].hi && s[|pre| + 2] == es[0].lo;
      assert Bytes(es)[1..] == Bytes(es[1..]);
    }
  }

  /**
    The converse of `ReadRun`'s contract: a maximal run of well-formed escapes is read
    as exactly its bytes.
  */
  lemma {:induction false} ReadRunReadsEscapes(s: string, i: nat, bytes: seq<Byte>)
    requires |bytes| > 0 && EscapesAt(s, i, bytes)
    requires i + 3 * |bytes| == |s| || (i + 3 * |bytes| < |s| && s[i + 3 * |bytes|] != '%')
    ensures i < |s| && s[i] == '%'
    ensures ReadRun(s, i) == Success(EscapeRun(bytes, i + 3 * |bytes|))
    decreases |bytes|
  {
    var b := EscapedByte(s, i);
    if |bytes| == 1 {
      assert bytes == [b];
    } else {
      ReadRunReadsEscapes(s, i + 3, bytes[1..]);
      assert s[i + 3] == '%';
      assert [b] + bytes[1..] == bytes;
    }
  }

  /** A piece of a path: a plain character, or one run of escapes. */
  datatype Piece = Plain(c: char) | Escaped(escapes: seq<Escape>)

  /**
    Pieces that decode without error and unambiguously: plain characters are not '%',
    runs are non-empty and hold valid escapes only, and no two runs are adjacent (they
    would read back as one).
  */
  predicate WellFormed(ps: seq<Piece>) {
    && (forall k :: 0 <= k < |ps| && ps[k].Plain? ==> ps[k].c != '%')
    && (forall k :: 0 <= k < |ps| && ps[k].Escaped? ==> |ps[k].escapes| > 0)
    && (forall k, j :: 0 <= k < |ps| && ps[k].Escaped? && 0 <= j < |ps[k].escapes| ==> ValidEscape(ps[k].escapes[j]))
    && (forall k :: 0 <= k < |ps| - 1 && ps[k].Escaped? ==> ps[k + 1].Plain?)
  }

  /** The path the pieces make up. */
  function Render(ps: seq<Piece>): string {
    if |ps| == 0 then []
    else (match ps[0] case Plain(c) => [c] case Escaped(es) => EscapeText(es)) + Render(ps[1..])
  }

  /** The decoded path: plain characters as they are, each run's bytes through the charset. */
  function Text(ps: seq<Piece>, toText: seq<Byte> -> string): string {
    if |ps| == 0 then []
    else (match ps[0] case Plain(c) => [c] case Escaped(es) => toText(Bytes(es))) + Text(ps[1..], toText)
  }

  /** What well-formedness says about the first piece and the rest. */
  lemma WellFormedFirst(ps: seq<Piece>)
    requires WellFormed(ps) && |ps| > 0
    ensures WellFormed(ps[1..])
    ensures ps[0].Plain? ==> ps[0].c != '%'
    ensures ps[0].Escaped? ==>
      && |ps[0].escapes| > 0
      && (forall j :: 0 <= j < |ps[0].escapes| ==> ValidEscape(ps[0].escapes[j]))
      && (Render(ps[1..]) == [] || Render(ps[1..])[0] != '%')
  {
    forall k | 0 <= k < |ps[1..]| ensures ps[1..][k] == ps[k + 1] { }
    if ps[0].Escaped? && |ps| > 1 {
      assert ps[1].Plain? && ps[1].c != '%';
      assert ps[1..][0] == ps[1];
      assert Render(ps[1..])[0] == ps[1].c;
    }
  }

  /** A maximal run of valid escapes, wherever it stands, is read as exactly its bytes. */
  lemma ReadsRun(pre: string, es: seq<Escape>, rest: string)
    requires |es| > 0 && forall j :: 0 <= j < |es| ==> ValidEscape(es[j])
    requires rest == [] || rest[0] != '%'
    ensures var s := pre + EscapeText(es) + rest;
      && |pre| < |s| && s[|pre|] == '%'
      && ReadRun(s, |pre|) == Success(EscapeRun(Bytes(es), |pre| + 3 * |es|))
  {
    var s := pre + EscapeText(es) + rest;
    EscapeTextReadsBack(pre, es, rest);
    if rest != [] {
      assert s[|pre| + 3 * |es|] == rest[0];
    }
    ReadRunReadsEscapes(s, |pre|, Bytes(es));
  }

  /** The loop copies a character other than '%' and carries on after it. */
  lemma DecodePlainStep(s: string, i: nat, t: string, toText: seq<Byte> -> string)
    requires i < |s| && s[i] != '%'
    requires DecodeFrom(s, i + 1, toText) == Success(t)
    ensures DecodeFrom(s, i, toText) == Success([s[i]] + t)
  {
  }

  /** The loop converts a run of escapes as one buffer and carries on after it. */
  lemma DecodeRunStep(s: string, i: nat, run: EscapeRun, t: string, toText: seq<Byte> -> string)
    requires i < |s| && s[i] == '%'
    requires ReadRun(s, i) == Success(run) && run.end <= |s|
    requires DecodeFrom(s, run.end, toText) == Success(t)
    ensures DecodeFrom(s, i, toText) == Success(toText(run.bytes) + t)
  {
  }

  /** Where the path of the pieces starts with a plain character. */
  lemma PlainPieceAt(s: string, i: nat, ps: seq<Piece>)
    requires |ps| > 0 && ps[0].Plain? && i <= |s| && s[i..] == Render(ps)
    ensures i < |s| && s[i] == ps[0].c && s[i + 1..] == Render(ps[1..])
  {
    assert s[i..] == [ps[0].c] + Render(ps[1..]);
    assert s[i] == s[i..][0];
    assert s[i + 1..] == s[i..][1..];
  }

  /** Where a maximal run of valid escapes starts. */
  lemma RunAt(s: string, i: nat, es: seq<Escape>, rest: string)
    requires |es| > 0 && forall j :: 0 <= j < |es| ==> ValidEscape(es[j])
    requires rest == [] || rest[0] != '%'
    requires i <= |s| && s[i..] == EscapeText(es) + rest
    ensures var end := i + 3 * |es|;
      && i < end <= |s| && s[i] == '%'
      && s[end..] == rest
      && ReadRun(s, i) == Success(EscapeRun(Bytes(es), end))
  {
    SliceAt(s, i, EscapeText(es), rest);
    ReadsRun(s[..i], es, rest);
  }

  lemma SliceAt(s: string, i: nat, mid: string, rest: string)
    requires i <= |s| && s[i..] == mid + rest
    ensures s == s[..i] + mid + rest && s[i + |mid|..] == rest
  {
    assert s == s[..i] + s[i..];
    assert s[i + |mid|..] == s[i..][|mid|..];
  }

  /** The loop, from any index at which the path of well-formed pieces starts, decodes it into their text. */
  lemma {:induction false} DecodeRenderAt(s: string, i: nat, ps: seq<Piece>, toText: seq<Byte> -> string)
    requires WellFormed(ps) && i <= |s| && s[i..] == Render(ps)
    ensures DecodeFrom(s, i, toText) == Success(Text(ps, toText))
    decreases |ps|
  {
    if |ps| == 0 {
      assert |s[i..]| == 0;
    } else {
      WellFormedFirst(ps);
      var t := Text(ps[1..], toText);
      if ps[0].Plain? {
        PlainPieceAt(s, i, ps);
        DecodeRenderAt(s, i + 1, ps[1..], toText);
        DecodePlainStep(s, i, t, toText);
      } else {
        var end := i + 3 * |ps[0].escapes|;
        assert s[i..] == EscapeText(ps[0].escapes) + Render(ps[1..]);
        RunAt(s, i, ps[0].escapes, Render(ps[1..]));
        DecodeRenderAt(s, end, ps[1..], toText);
        DecodeRunStep(s, i, EscapeRun(Bytes(ps[0].escapes), end), t, toText);
      }
    }
  }

  /**
    Round trip: the path made of well-formed pieces decodes without error, giving back every
    plain character in place and every run of escapes, whatever the case or width of its
    digits, as the charset's text for its bytes.
  */
  lemma DecodeRender(ps: seq<Piece>, toText: seq<Byte> -> string)
    requires WellFormed(ps)
    ensures Decode(Render(ps), toText) == Success(Text(ps, toText))
  {
    assert Render(ps)[0..] == Render(ps);
    DecodeRenderAt(Render(ps), 0, ps, toText);
    DecodeIsItsLoop(Render(ps), toText);
  }

  /** A plain character in front of well-formed pieces. */
  lemma PlainInFront(c: char, rest: seq<Piece>)
    requires c != '%' && WellFormed(rest)
    ensures WellFormed([Plain(c)] + rest) && Render([Plain(c)] + rest) == [c] + Render(rest)
  {
    var ps := [Plain(c)] + rest;
    assert ps[1..] == rest;
    forall k | 1 <= k < |ps| ensures ps[k] == rest[k - 1] { }
  }

  /** An escape in front of pieces: it joins a run that starts them, or starts a run of its own. */
  function EscapeInFront(e: Escape, rest: seq<Piece>): seq<Piece> {
    if |rest| > 0 && rest[0].Escaped? then [Escaped([e] + rest[0].escapes)] + rest[1..]
    else [Escaped([e])] + rest
  }

  lemma EscapeInFrontRenders(e: Escape, rest: seq<Piece>)
    requires ValidEscape(e) && WellFormed(rest)
    ensures var ps := EscapeInFront(e, rest);
      WellFormed(ps) && Render(ps) == ['%', e.hi, e.lo] + Render(rest)
  {
    var ps := EscapeInFront(e, rest);
    if |rest| > 0 && rest[0].Escaped? {
      var run := [e] + rest[0].escapes;
      assert ps[1..] == rest[1..];
      assert run[1..] == rest[0].escapes;
      assert Render(rest) == EscapeText(rest[0].escapes) + Render(rest[1..]);
      forall k | 1 <= k < |ps| ensures ps[k] == rest[k] { }
      forall j | 0 <= j < |run| ensures ValidEscape(run[j]) {
        if j > 0 { assert run[j] == rest[0].escapes[j - 1]; }
      }
    } else {
      assert ps[1..] == rest;
      assert [e][1..] == [];
      forall k | 1 <= k < |ps| ensures ps[k] == rest[k - 1] { }
    }
  }

  /**
    The pieces of the path from index `i` on, when every '%' there starts a well-formed
    escape: each maximal run of escapes is one piece, every other character a plain one.
  */
  function Parse(s: string, i: nat): (ps: seq<Piece>)
    requires i <= |s|
    requires forall j :: i <= j < |s| ==> !BadEscapeAt(s, j)
    ensures WellFormed(ps) && Render(ps) == s[i..]
    decreases |s| - i
  {
    if i == |s| then []
    else if s[i] != '%' then
      var rest := Parse(s, i + 1);
      assert s[i..] == [s[i]] + s[i + 1..];
      PlainInFront(s[i], rest);
      [Plain(s[i])] + rest
    else
      assert !BadEscapeAt(s, i);
      var e := Escape(s[i + 1], s[i + 2]);
      var rest := Parse(s, i + 3);
      assert s[i..] == ['%', e.hi, e.lo] + s[i + 3..];
      EscapeInFrontRenders(e, rest);
      EscapeInFront(e, rest)
  }

  /**
    Every successful decode is covered by the round trip: its input is the path of some
    well-formed pieces, and its result is their decoded text.
  */
  lemma DecodeReadsPieces(s: string, toText: seq<Byte> -> string)
    ensures Decode(s, toText).Success? ==>
      exists ps :: WellFormed(ps) && Render(ps) == s && Decode(s, toText).value == Text(ps, toText)
  {
    if Decode(s, toText).Success? {
      var ps := Parse(s, 0);
      assert s[0..] == s;
      DecodeRender(ps, toText);
    }
  }

  /** Each run of escapes goes through the charset as one buffer, whatever the case of its digits; other characters stay. */
  lemma DecodeRunExample(toText: seq<Byte> -> string)
    ensures Decode("a%41%4fb", toText) == Success("a" + toText([0x41, 0x4F]) + "b")
  {
    var es := [Escape('4', '1'), Escape('4', 'f')];
    var ps := [Plain('a'), Escaped(es), Plain('b')];
    assert EscapeText(es) == "%41%4f" by {
      assert es[1..] == [Escape('4', 'f')];
      assert EscapeText([Escape('4', 'f')]) == "%4f";
    }
    assert Render(ps) == "a%41%4fb" by {
      assert Render(ps[2..]) == "b";
      assert Render(ps[1..]) == "%41%4fb";
    }
    assert Bytes(es) == [0x41, 0x4F];
    assert Text(ps, toText) == "a" + toText([0x41, 0x4F]) + "b" by {
      assert Text(ps[2..], toText) == "b";
    }
    DecodeRender(ps, toText);
  }

  /** A '%' with fewer than two characters after it is incomplete. */
  lemma DecodeIncompleteExample(toText: seq<Byte> -> string)
    ensures Decode("x%4", toText) == Failure(Incomplete(1))
  {
    assert BadEscapeAt("x%4", 1);
  }

  /** A '%' followed by a character that is not a hexadecimal digit is invalid. */
  lemma DecodeInvalidExample(toText: seq<Byte> -> string)
    ensures Decode("%4G", toText) == Failure(Invalid(0, "%4G"))
  {
    assert BadEscapeAt("%4G", 0);
    assert "%4G"[0..3] == "%4G";
  }
}
