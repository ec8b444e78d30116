/**
 * The reading of `epubcheck` diagnostics (generate/src/epubcheck.rs): the
 * severity and code of each line, the most severe message of a run and
 * the verdict drawn from it. The text is the tool's standard error as
 * bytes; running the tool and its lock are not part of this model.
 */
module Epubcheck {
  import opened Wrappers

  type byte = x: int | 0 <= x < 256

  /** The bytes of an ASCII string. */
  function Ascii(s: string): (r: seq<byte>)
    requires forall i :: 0 <= i < |s| ==> s[i] as int < 128
    ensures |r| == |s| && forall i :: 0 <= i < |s| ==> r[i] == s[i] as int
  {
    if s == [] then [] else [s[0] as int] + Ascii(s[1..])
  }

  datatype ParseError = CodeParseError | SeverityParseError

  /** The messages of the two parse errors. */
  function ParseErrorText(e: ParseError): string
  {
    match e
    case CodeParseError => "could not parse code"
    case SeverityParseError => "unknown severity"
  }

  datatype Severity = Info | Usage | Warning | Error | Fatal

  /** The derived order follows declaration order. */
  function Rank(s: Severity): nat
  {
    match s
    case Info => 0
    case Usage => 1
    case Warning => 2
    case Error => 3
    case Fatal => 4
  }

  function Max(a: Severity, b: Severity): (r: Severity)
    ensures Rank(a) <= Rank(r) && Rank(b) <= Rank(r) && (r == a || r == b)
  {
    if Rank(a) >= Rank(b) then a else b
  }

  /** Severities are told apart by their rank, and rank 0 is `Info`. */
  lemma RankInjective(a: Severity, b: Severity)
    ensures Rank(a) == Rank(b) <==> a == b
    ensures Rank(Info) < Rank(Usage) < Rank(Warning) < Rank(Error) < Rank(Fatal)
  {
  }

  /** `Display` for `Severity`: `INFO`, `USAGE`, `WARNING`, `ERROR`, `FATAL`, as bytes. */
  function DisplaySeverity(s: Severity): (r: seq<byte>)
    ensures 4 <= |r| <= 7 && forall j :: 0 <= j < |r| ==> 'A' as int <= r[j] <= 'Z' as int
  {
    match s
    case Info => [73, 78, 70, 79]
    case Usage => [85, 83, 65, 71, 69]
    case Warning => [87, 65, 82, 78, 73, 78, 71]
    case Error => [69, 82, 82, 79, 82]
    case Fatal => [70, 65, 84, 65, 76]
  }

  /** `from_str` for `Severity`: exactly the five upper-case names. */
  function ParseSeverity(b: seq<byte>): Result<Severity, ParseError>
  {
    if b == DisplaySeverity(Info) then Ok(Info)
    else if b == DisplaySeverity(Usage) then Ok(Usage)
    else if b == DisplaySeverity(Warning) then Ok(Warning)
    else if b == DisplaySeverity(Error) then Ok(Error)
    else if b == DisplaySeverity(Fatal) then Ok(Fatal)
    else Err(SeverityParseError)
  }

  /** Parsing accepts exactly what `Display` writes, and gives back the same severity. */
  lemma SeverityRoundTrip(b: seq<byte>, s: Severity)
    ensures ParseSeverity(b) == Ok(s) <==> b == DisplaySeverity(s)
    ensures ParseSeverity(b).Err? <==> forall v: Severity :: b != DisplaySeverity(v)
  {
  }

  /** `Code`: three bytes of category and an 8-bit number. */
  datatype Code = Code(cat: seq<byte>, num: byte)

  const DASH: byte := 45
  const PLUS: byte := 43
  const LPAREN: byte := 40
  const RPAREN: byte := 41
  const COLON: byte := 58
  const SPACE: byte := 32

  predicate IsDigit(b: byte)
  {
    48 <= b <= 57
  }

  function DecValue(ds: seq<byte>): nat
    requires forall i :: 0 <= i < |ds| ==> IsDigit(ds[i])
  {
    if ds == [] then 0
    else
      assert IsDigit(ds[|ds| - 1]);
      10 * DecValue(ds[..|ds| - 1]) + (ds[|ds| - 1] - 48)
  }

  /** `u8::from_str`: an optional `+`, then at least one decimal digit, with a value below 256. */
  function ParseU8(b: seq<byte>): (r: Option<byte>)
    ensures r.Some? ==> b != [] && b != [PLUS]
  {
    var ds := if b != [] && b[0] == PLUS then b[1..] else b;
    if ds == [] then None
    else if !(forall i :: 0 <= i < |ds| ==> IsDigit(ds[i])) then None
    else if DecValue(ds) < 256 then Some(DecValue(ds))
    else None
  }

  /** `from_str` for `Code`: seven bytes, a `-` at byte 3, a number in bytes 4 to 6. */
  function ParseCode(s: seq<byte>): (r: Result<Code, ParseError>)
    ensures r.Ok? <==> |s| == 7 && s[3] == DASH && ParseU8(s[4..]).Some?
    ensures r.Ok? ==> r.value.cat == s[..3] && Some(r.value.num) == ParseU8(s[4..])
  {
    if |s| != 7 then Err(CodeParseError)
    else if s[3] != DASH then Err(CodeParseError)
    else match ParseU8(s[4..])
      case None => Err(CodeParseError)
      case Some(n) => Ok(Code(s[..3], n))
  }

  /** `Display` for `Code`: `cat-num`, the number without padding. */
  function DisplayCode(c: Code): (r: seq<byte>)
    ensures |r| > |c.cat| && r[..|c.cat|] == c.cat && r[|c.cat|] == DASH
  {
    c.cat + [DASH] + Decimal(c.num)
  }

  /** `{}` for an unsigned number: decimal digits, no leading zero. */
  function Decimal(n: nat): (r: seq<byte>)
    ensures r != [] && forall i :: 0 <= i < |r| ==> IsDigit(r[i])
  {
    if n < 10 then [48 + n] else Decimal(n / 10) + [48 + n % 10]
  }

  /** Reading the digits back gives the number. */
  lemma {:induction false} DecValueDecimal(n: nat)
    ensures DecValue(Decimal(n)) == n
  {
    if n >= 10 {
      var r := Decimal(n);
      assert r[..|r| - 1] == Decimal(n / 10);
      DecValueDecimal(n / 10);
    } else {
      assert Decimal(n)[..0] == [];
    }
  }

  lemma DecimalWidth(n: nat)
    ensures n < 10 ==> |Decimal(n)| == 1
    ensures 10 <= n < 100 ==> |Decimal(n)| == 2
    ensures 100 <= n < 1000 ==> |Decimal(n)| == 3
  {
    if n >= 10 {
      var q := n / 10;
      assert |Decimal(n)| == |Decimal(q)| + 1;
      if q >= 10 {
        assert |Decimal(q)| == |Decimal(q / 10)| + 1;
        assert n < 1000 ==> q / 10 < 10;
      }
    }
  }

  /**
   * Displaying a code gives back a parseable code only when its number has
   * three digits: without zero padding, a smaller number is too short.
   */
  lemma CodeRoundTrip(c: Code)
    requires |c.cat| == 3
    ensures c.num >= 100 ==> ParseCode(DisplayCode(c)) == Ok(c)
    ensures c.num < 100 ==> ParseCode(DisplayCode(c)).Err?
  {
    DecimalWidth(c.num);
    var d := DisplayCode(c);
    if c.num >= 100 {
      assert d[4..] == Decimal(c.num);
      DecValueDecimal(c.num);
      assert d[..3] == c.cat;
    }
  }

  /** `RSC-005` is read as category `RSC` and number 5, and displays as `RSC-5`. */
  lemma CodeUnpadded()
    ensures ParseCode([82, 83, 67, 45, 48, 48, 53]) == Ok(Code([82, 83, 67], 5))
    ensures DisplayCode(Code([82, 83, 67], 5)) == [82, 83, 67, 45, 53]
  {
    var s: seq<byte> := [82, 83, 67, 45, 48, 48, 53];
    var ds: seq<byte> := [48, 48, 53];
    assert s[4..] == ds && s[..3] == [82, 83, 67];
    assert ds[..2] == [48, 48] && ds[..2][..1] == [48] && ds[..2][..1][..0] == [];
    assert DecValue(ds[..2][..1]) == 0;
    assert DecValue(ds[..2]) == 0;
    assert DecValue(ds) == 5;
  }

  datatype Message = Message(code: Code, sev: Severity, msg: seq<byte>)

  /** `Display` for `Message`: `SEV(code): msg`. */
  function DisplayMessage(m: Message): seq<byte>
  {
    DisplaySeverity(m.sev) + [LPAREN] + DisplayCode(m.code) + [RPAREN, COLON, SPACE] + m.msg
  }

  datatype EpubcheckResult = EpubcheckResult(mostSevere: Option<Severity>, msgs: seq<Message>)

  /** `is_error`: the most severe message is an error or fatal. */
  function IsError(r: EpubcheckResult): (b: bool)
    ensures b <==> r.mostSevere == Some(Error) || r.mostSevere == Some(Fatal)
  {
    match r.mostSevere
    case None => false
    case Some(sev) => Rank(sev) >= Rank(Error)
  }

  /** The report of a failing run: a heading, then each message on an indented line. */
  function ErrorText(msgs: seq<Message>): seq<byte>
  {
    if msgs == [] then Ascii("epubcheck errors:")
    else ErrorText(msgs[..|msgs| - 1]) + Ascii("\n        ") + DisplayMessage(msgs[|msgs| - 1])
  }

  /** `as_result` as written: it passes a run whose worst message is above the limit. */
  function AsResultAsWritten(r: EpubcheckResult, maxSev: Severity): (res: Result<(), seq<byte>>)
    ensures res.Ok? <==> r.mostSevere.None? || Rank(r.mostSevere.value) > Rank(maxSev)
  {
    if r.mostSevere.None? || Rank(r.mostSevere.value) > Rank(maxSev) then Ok(())
    else Err(ErrorText(r.msgs))
  }

  /** A fatal run passes a `WARNING` limit, and a run of notes fails it. */
  lemma AsResultInverted(m: Message)
    ensures AsResultAsWritten(EpubcheckResult(Some(Fatal), [m.(sev := Fatal)]), Warning).Ok?
    ensures AsResultAsWritten(EpubcheckResult(Some(Info), [m.(sev := Info)]), Warning).Err?
  {
  }

  /** `as_result` as intended: a run passes when no message is above the limit, and otherwise lists them all. */
  function AsResult(r: EpubcheckResult, maxSev: Severity): (res: Result<(), seq<byte>>)
    ensures res.Ok? <==> r.mostSevere.None? || Rank(r.mostSevere.value) <= Rank(maxSev)
    ensures res.Err? ==> res.error == ErrorText(r.msgs)
  {
    if r.mostSevere.None? || Rank(r.mostSevere.value) <= Rank(maxSev) then Ok(())
    else Err(ErrorText(r.msgs))
  }

  /** The most severe of the messages' severities, `None` for no message. */
  function MostSevere(msgs: seq<Message>): (r: Option<Severity>)
    ensures r.None? <==> msgs == []
    ensures r.Some? ==> exists i :: 0 <= i < |msgs| && msgs[i].sev == r.value
    ensures r.Some? ==> forall i :: 0 <= i < |msgs| ==> Rank(msgs[i].sev) <= Rank(r.value)
  {
    if msgs == [] then None
    else
      var prev := MostSevere(msgs[..|msgs| - 1]);
      Some(Max(if prev.None? then Info else prev.value, msgs[|msgs| - 1].sev))
  }

  /** A run read from text passes the intended check exactly when none of its messages is above the limit. */
  lemma AsResultOfRun(msgs: seq<Message>, maxSev: Severity)
    ensures AsResult(EpubcheckResult(MostSevere(msgs), msgs), maxSev).Ok? <==>
      forall i :: 0 <= i < |msgs| ==> Rank(msgs[i].sev) <= Rank(maxSev)
  {
  }

  /** `p` occurs in `s` at `j`. */
  predicate Occurs(s: seq<byte>, p: seq<byte>, j: nat)
  {
    j + |p| <= |s| && s[j..j + |p|] == p
  }

  /** The first occurrence of `p` in `s` at or after `from`, or |s| if none. */
  function Find(s: seq<byte>, p: seq<byte>, from: nat): (r: nat)
    requires from <= |s|
    ensures from <= r <= |s|
    decreases |s| - from
  {
    if from == |s| then |s|
    else if Occurs(s, p, from) then from
    else Find(s, p, from + 1)
  }

  /** `Find` gives the first occurrence at or after `from`, if any. */
  lemma {:induction false} FindFirstOccurrence(s: seq<byte>, p: seq<byte>, from: nat)
    requires from <= |s|
    ensures Find(s, p, from) < |s| ==> Occurs(s, p, Find(s, p, from))
    ensures forall j :: from <= j < Find(s, p, from) ==> !Occurs(s, p, j)
    decreases |s| - from
  {
    if from < |s| && !Occurs(s, p, from) {
      FindFirstOccurrence(s, p, from + 1);
    }
  }

  /** `split_once`: the parts before and after the first occurrence of `p`. */
  function SplitOnce(s: seq<byte>, p: seq<byte>): Option<(seq<byte>, seq<byte>)>
  {
    var i := Find(s, p, 0);
    if i < |s| && i + |p| <= |s| then Some((s[..i], s[i + |p|..])) else None
  }

  /** The split parts are around the first occurrence; with no occurrence there is no split. */
  lemma SplitOnceSpec(s: seq<byte>, p: seq<byte>)
    requires p != []
    ensures var r := SplitOnce(s, p);
      (r.Some? ==> r.value.0 + p + r.value.1 == s && Occurs(s, p, |r.value.0|)) &&
      (r.Some? ==> forall j :: 0 <= j < |r.value.0| ==> !Occurs(s, p, j)) &&
      (r.None? ==> forall j :: 0 <= j < |s| ==> !Occurs(s, p, j))
  {
    FindFirstOccurrence(s, p, 0);
    var i := Find(s, p, 0);
    if i < |s| {
      assert s == s[..i] + s[i..i + |p|] + s[i + |p|..];
    }
  }

  /** `trim_end_matches`: drops every trailing `c`. */
  function TrimEnd(s: seq<byte>, c: byte): (r: seq<byte>)
    ensures |r| <= |s| && r == s[..|r|]
    ensures r == [] || r[|r| - 1] != c
    ensures forall j :: |r| <= j < |s| ==> s[j] == c
  {
    if s != [] && s[|s| - 1] == c then TrimEnd(s[..|s| - 1], c) else s
  }

  /** One line `SEV(code): msg`; `None` where the source panics on `unwrap`. */
  function ParseLine(line: seq<byte>): Option<Message>
  {
    match SplitOnce(line, [COLON, SPACE])
    case None => None
    case Some((sevcode, msg)) =>
      match SplitOnce(sevcode, [LPAREN])
      case None => None
      case Some((sev, code)) =>
        match ParseCode(TrimEnd(code, RPAREN))
        case Err(_) => None
        case Ok(c) =>
          match ParseSeverity(sev)
          case Err(_) => None
          case Ok(s) => Some(Message(c, s, msg))
  }

  /** A well-formed line reads back as the message it displays. */
  lemma ParseLineDisplay(m: Message)
    requires |m.code.cat| == 3 && m.code.num >= 100
    requires forall i :: 0 <= i < 3 ==> m.code.cat[i] != LPAREN && m.code.cat[i] != COLON
    ensures ParseLine(DisplayMessage(m)) == Some(m)
  {
    var sv := DisplaySeverity(m.sev);
    var cd := DisplayCode(m.code);
    CodeRoundTrip(m.code);
    DecimalWidth(m.code.num);
    var head := sv + [LPAREN] + cd + [RPAREN];
    var line := DisplayMessage(m);
    assert line == head + [COLON, SPACE] + m.msg;
    assert SplitOnce(line, [COLON, SPACE]) == Some((head, m.msg)) by {
      SplitAt(line, [COLON, SPACE], head, m.msg);
    }
    assert SplitOnce(head, [LPAREN]) == Some((sv, cd + [RPAREN])) by {
      SplitAt(head, [LPAREN], sv, cd + [RPAREN]);
    }
    assert TrimEnd(cd + [RPAREN], RPAREN) == TrimEnd(cd, RPAREN) == cd;
    SeverityRoundTrip(sv, m.sev);
  }

  /** When the first byte of `p` does not occur in `a`, `a + p + b` splits into `a` and `b`. */
  lemma SplitAt(s: seq<byte>, p: seq<byte>, a: seq<byte>, b: seq<byte>)
    requires p != [] && s == a + p + b
    requires forall j :: 0 <= j < |a| ==> a[j] != p[0]
    ensures SplitOnce(s, p) == Some((a, b))
  {
    assert s[|a|..|a| + |p|] == p;
    FindFirst(s, p, 0, |a|);
    assert s[..|a|] == a && s[|a| + |p|..] == b;
  }

  /** `Find` stops at the first occurrence. */
  lemma {:induction false} FindFirst(s: seq<byte>, p: seq<byte>, from: nat, i: nat)
    requires p != []
    requires from <= i && Occurs(s, p, i)
    requires forall j :: from <= j < i ==> s[j] != p[0]
    ensures Find(s, p, from) == i
    decreases i - from
  {
    if from < i {
      assert !Occurs(s, p, from) by {
        if from + |p| <= |s| {
          assert s[from..from + |p|][0] == s[from];
        }
      }
      FindFirst(s, p, from + 1, i);
    }
  }

  /**
   * `str::lines`: split after each `\n`, no final empty line. A line ended by
   * `\r\n` loses the `\r`; a last line ended by the input keeps a bare `\r`.
   */
  function Lines(s: seq<byte>): (r: seq<seq<byte>>)
    ensures forall k :: 0 <= k < |r| ==> 10 !in r[k]
    ensures s == [] <==> r == []
    decreases |s|
  {
    if s == [] then []
    else
      var i := Find(s, [10], 0);
      FindFirstOccurrence(s, [10], 0);
      assert forall j :: 0 <= j < i ==> s[j] != 10 by {
        forall j | 0 <= j < i ensures s[j] != 10 {
          assert !Occurs(s, [10], j);
          assert s[j..j + 1] == [s[j]];
        }
      }
      var line := s[..i];
      var line' := if i < |s| && line != [] && line[|line| - 1] == 13 then line[..|line| - 1] else line;
      assert forall j :: 0 <= j < |line'| ==> line'[j] == s[j];
      [line'] + (if i < |s| then Lines(s[i + 1..]) else [])
  }

  /** Without the first byte of `p` after `from`, `Find` runs to the end. */
  lemma {:induction false} FindAbsent(s: seq<byte>, p: seq<byte>, from: nat)
    requires p != [] && from <= |s|
    requires forall j :: from <= j < |s| ==> s[j] != p[0]
    ensures Find(s, p, from) == |s|
    decreases |s| - from
  {
    if from < |s| {
      assert !Occurs(s, p, from) by {
        if from + |p| <= |s| {
          assert s[from..from + |p|][0] == s[from];
        }
      }
      FindAbsent(s, p, from + 1);
    }
  }

  /** Each line followed by a `\n`. */
  function Terminated(ls: seq<seq<byte>>): seq<byte>
  {
    if ls == [] then [] else ls[0] + [10] + Terminated(ls[1..])
  }

  /** The first `\n` of a non-empty input: none before it. */
  lemma FirstLf(s: seq<byte>)
    requires s != []
    ensures var i := Find(s, [10], 0); (i < |s| ==> s[i] == 10) && forall j :: 0 <= j < i ==> s[j] != 10
  {
    var i := Find(s, [10], 0);
    FindFirstOccurrence(s, [10], 0);
    forall j | 0 <= j < i ensures s[j] != 10 {
      assert !Occurs(s, [10], j);
      assert s[j..j + 1] == [s[j]];
    }
    if i < |s| {
      assert s[i..i + 1] == [10];
    }
  }

  /** Without `\r`, `Lines` cuts a non-empty input at its first `\n` and keeps the line whole. */
  lemma LinesFirst(s: seq<byte>)
    requires s != [] && 13 !in s
    ensures var i := Find(s, [10], 0);
      Lines(s) == [s[..i]] + (if i < |s| then Lines(s[i + 1..]) else [])
  {
    var i := Find(s, [10], 0);
    if i > 0 {
      assert s[..i][i - 1] == s[i - 1];
    }
  }

  /** Cutting at a `\n`: the input is the line, the `\n` and the rest, which has no `\r` either. */
  lemma CutAt(s: seq<byte>, i: nat)
    requires i < |s| && s[i] == 10 && 13 !in s
    ensures s == s[..i] + [10] + s[i + 1..] && 13 !in s[i + 1..]
    ensures s[i + 1..] != [] ==> s[i + 1..][|s[i + 1..]| - 1] == s[|s| - 1]
    ensures s[i + 1..] == [] ==> s[|s| - 1] == 10
  {
    assert s == s[..i] + [10] + s[i + 1..];
  }

  /** `Terminated` of a line and more lines. */
  lemma TerminatedCons(line: seq<byte>, ls: seq<seq<byte>>)
    ensures Terminated([line] + ls) == line + [10] + Terminated(ls)
  {
    assert ([line] + ls)[1..] == ls;
  }

  /** One step of `LinesTerminated`: the first line, its `\n`, then the rest terminated. */
  lemma TerminatedStep(s: seq<byte>, i: nat, rest: seq<seq<byte>>)
    requires i < |s| && s[i] == 10 && 13 !in s
    requires var t := s[i + 1..]; Terminated(rest) == if t == [] || t[|t| - 1] == 10 then t else t + [10]
    ensures Terminated([s[..i]] + rest) == if s[|s| - 1] == 10 then s else s + [10]
  {
    CutAt(s, i);
    TerminatedCons(s[..i], rest);
  }

  /**
   * Without `\r`, the lines are the input cut at each `\n`: ending each
   * line with `\n` again gives the input back, with a `\n` added when the
   * input did not end with one.
   */
  lemma {:induction false} LinesTerminated(s: seq<byte>)
    requires 13 !in s
    ensures Terminated(Lines(s)) == if s == [] || s[|s| - 1] == 10 then s else s + [10]
    decreases |s|
  {
    if s != [] {
      var i := Find(s, [10], 0);
      FirstLf(s);
      LinesFirst(s);
      if i < |s| {
        LinesTerminated(s[i + 1..]);
        TerminatedStep(s, i, Lines(s[i + 1..]));
      } else {
        TerminatedCons(s, []);
        assert s[..i] == s;
      }
    }
  }

  /** A line ended by `\r\n` loses the `\r`, as the standard library documents. */
  lemma LinesCrLf()
    ensures Lines([97, 13, 10, 98, 10]) == [[97], [98]]
  {
    var s1: seq<byte> := [97, 13, 10, 98, 10];
    assert s1[2..3] == [10];
    FindFirst(s1, [10], 0, 2);
    var t1 := s1[3..];
    assert t1 == [98, 10] && t1[1..2] == [10];
    FindFirst(t1, [10], 0, 1);
    assert t1[2..] == [] && t1[..1] == [98];
    assert Lines(t1) == [[98]];
    assert s1[..2] == [97, 13] && s1[..2][..1] == [97];
    assert Lines(s1) == [[97]] + Lines(t1);
  }

  /** A last line ended by the input keeps a bare `\r`. */
  lemma LinesBareCr()
    ensures Lines([97, 13]) == [[97, 13]]
  {
    var s2: seq<byte> := [97, 13];
    FindAbsent(s2, [10], 0);
    assert s2[..2] == s2;
  }

  /** An empty line between two `\n` is kept; only the final empty line is not. */
  lemma LinesEmptyLine()
    ensures Lines([97, 10, 13, 10, 98, 13]) == [[97], [], [98, 13]]
  {
    var s3: seq<byte> := [97, 10, 13, 10, 98, 13];
    assert s3[1..2] == [10];
    FindFirst(s3, [10], 0, 1);
    var t3 := s3[2..];
    assert t3 == [13, 10, 98, 13] && t3[1..2] == [10];
    FindFirst(t3, [10], 0, 1);
    var u3 := t3[2..];
    assert u3 == [98, 13];
    FindAbsent(u3, [10], 0);
    assert u3[..2] == u3;
    assert Lines(u3) == [[98, 13]];
    assert t3[..1] == [13] && t3[..1][..0] == [];
    assert Lines(t3) == [[]] + Lines(u3);
    assert s3[..1] == [97];
    assert Lines(s3) == [[97]] + Lines(t3);
  }

  /** The messages of the lines read by `parse`, one per line, or `None` at the first malformed line. */
  function ReadLines(lines: seq<seq<byte>>, parse: seq<byte> -> Option<Message>): (r: Option<seq<Message>>)
    ensures r.Some? ==> |r.value| == |lines|
  {
    if lines == [] then Some([])
    else match ReadLines(lines[..|lines| - 1], parse)
      case None => None
      case Some(ms) =>
        match parse(lines[|lines| - 1])
        case None => None
        case Some(m) => Some(ms + [m])
  }

  /** Reading succeeds exactly when every line parses, and then the messages are the lines' messages. */
  lemma {:induction false} ReadLinesEach(lines: seq<seq<byte>>, parse: seq<byte> -> Option<Message>)
    ensures ReadLines(lines, parse).Some? <==> forall i :: 0 <= i < |lines| ==> parse(lines[i]).Some?
    ensures ReadLines(lines, parse).Some? ==> forall i :: 0 <= i < |lines| ==> parse(lines[i]) == Some(ReadLines(lines, parse).value[i])
  {
    if lines != [] {
      var init := lines[..|lines| - 1];
      ReadLinesEach(init, parse);
      assert forall i :: 0 <= i < |init| ==> init[i] == lines[i];
    }
  }

  // ---------------------------------------------------------------------
  // UTF-8 well-formedness (`std::str::from_utf8`)
  // ---------------------------------------------------------------------

  /** A continuation byte, `80..BF`. */
  predicate Cont(b: byte)
  {
    0x80 <= b <= 0xBF
  }

  /**
   * The length of the well-formed UTF-8 sequence the bytes start with, or 0
   * when they start with none: the table of well-formed byte sequences in
   * section 3.9 of the Unicode Standard, which rules out overlong forms,
   * surrogates and values above `10FFFF`.
   */
  function Utf8Width(s: seq<byte>): (r: nat)
    ensures r <= |s| && r <= 4
    ensures r > 0 ==> forall k :: 1 <= k < r ==> Cont(s[k])
  {
    if s == [] then 0
    else if s[0] < 0x80 then 1
    else if 0xC2 <= s[0] <= 0xDF then
      (if |s| >= 2 && Cont(s[1]) then 2 else 0)
    else if 0xE0 <= s[0] <= 0xEF then
      var lo := if s[0] == 0xE0 then 0xA0 else 0x80;
      var hi := if s[0] == 0xED then 0x9F else 0xBF;
      (if |s| >= 3 && lo <= s[1] <= hi && Cont(s[2]) then 3 else 0)
    else if 0xF0 <= s[0] <= 0xF4 then
      var lo := if s[0] == 0xF0 then 0x90 else 0x80;
      var hi := if s[0] == 0xF4 then 0x8F else 0xBF;
      (if |s| >= 4 && lo <= s[1] <= hi && Cont(s[2]) && Cont(s[3]) then 4 else 0)
    else 0
  }

  /** `from_utf8` succeeds: the bytes are a run of well-formed sequences. */
  predicate ValidUtf8(s: seq<byte>)
    decreases |s|
  {
    s == [] || (Utf8Width(s) > 0 && ValidUtf8(s[Utf8Width(s)..]))
  }

  /** A Unicode scalar value: a code point that is not a surrogate. */
  predicate Scalar(cp: nat)
  {
    cp <= 0x10FFFF && !(0xD800 <= cp <= 0xDFFF)
  }

  /** The UTF-8 encoding of a scalar value, an independent definition by bit fields. */
  function Encode(cp: nat): (r: seq<byte>)
    requires Scalar(cp)
    ensures 1 <= |r| <= 4
  {
    if cp < 0x80 then [cp]
    else if cp < 0x800 then [0xC0 + cp / 64, 0x80 + cp % 64]
    else if cp < 0x10000 then [0xE0 + cp / 4096, 0x80 + cp / 64 % 64, 0x80 + cp % 64]
    else [0xF0 + cp / 262144, 0x80 + cp / 4096 % 64, 0x80 + cp / 64 % 64, 0x80 + cp % 64]
  }

  /** Every scalar value's encoding is read as one whole well-formed sequence, whatever follows it. */
  lemma EncodeWidth(cp: nat, rest: seq<byte>)
    requires Scalar(cp)
    ensures Utf8Width(Encode(cp) + rest) == |Encode(cp)|
  {
    var e := Encode(cp);
    var s := e + rest;
    assert s[..|e|] == e;
    if 0x800 <= cp < 0x10000 {
      assert cp / 4096 == 0 ==> cp / 64 % 64 >= 32;
      assert cp / 4096 == 13 ==> cp / 64 % 64 < 32;
    } else if 0x10000 <= cp {
      assert cp / 262144 <= 4;
      assert cp / 262144 == 0 ==> cp / 4096 % 64 >= 16;
      assert cp / 262144 == 4 ==> cp / 4096 % 64 < 16;
    }
  }

  /** Every entry is a scalar value. */
  predicate AllScalar(cps: seq<nat>)
  {
    forall i :: 0 <= i < |cps| ==> Scalar(cps[i])
  }

  /** The encoding of a string of scalar values. */
  function EncodeAll(cps: seq<nat>): seq<byte>
    requires AllScalar(cps)
  {
    if cps == [] then [] else Encode(cps[0]) + EncodeAll(cps[1..])
  }

  /** Encoding scalar values always gives bytes `from_utf8` accepts. */
  lemma {:induction false} EncodeAllValid(cps: seq<nat>)
    requires AllScalar(cps)
    ensures ValidUtf8(EncodeAll(cps))
  {
    if cps != [] {
      var e := Encode(cps[0]);
      var rest := EncodeAll(cps[1..]);
      EncodeAllValid(cps[1..]);
      EncodeWidth(cps[0], rest);
      assert (e + rest)[|e|..] == rest;
    }
  }

  /** The scalar value of the well-formed sequence the bytes start with. */
  function DecodeFirst(s: seq<byte>): nat
    requires Utf8Width(s) > 0
  {
    var w := Utf8Width(s);
    if w == 1 then s[0]
    else if w == 2 then (s[0] as int - 0xC0) * 64 + (s[1] as int - 0x80)
    else if w == 3 then (s[0] as int - 0xE0) * 4096 + (s[1] as int - 0x80) * 64 + (s[2] as int - 0x80)
    else (s[0] as int - 0xF0) * 262144 + (s[1] as int - 0x80) * 4096 + (s[2] as int - 0x80) * 64 + (s[3] as int - 0x80)
  }

  /** Division by 64 reads off the last six bits. */
  lemma DivMod64(x: int, q: int, r: int)
    requires 0 <= r < 64 && x == q * 64 + r
    ensures x / 64 == q && x % 64 == r
  {
  }

  lemma DecodeTwo(s: seq<byte>)
    requires Utf8Width(s) == 2
    ensures Scalar(DecodeFirst(s)) && Encode(DecodeFirst(s)) == s[..2]
  {
    DivMod64(DecodeFirst(s), s[0] as int - 0xC0, s[1] as int - 0x80);
  }

  lemma DecodeThree(s: seq<byte>)
    requires Utf8Width(s) == 3
    ensures Scalar(DecodeFirst(s)) && Encode(DecodeFirst(s)) == s[..3]
  {
    var a: int, b: int, c: int := s[0] as int - 0xE0, s[1] as int - 0x80, s[2] as int - 0x80;
    var cp := DecodeFirst(s);
    DivMod64(cp, a * 64 + b, c);
    DivMod64(a * 64 + b, a, b);
    assert cp / 4096 == a;
  }

  lemma DecodeFour(s: seq<byte>)
    requires Utf8Width(s) == 4
    ensures Scalar(DecodeFirst(s)) && Encode(DecodeFirst(s)) == s[..4]
  {
    var a: int, b: int, c: int, d: int := s[0] as int - 0xF0, s[1] as int - 0x80, s[2] as int - 0x80, s[3] as int - 0x80;
    var cp := DecodeFirst(s);
    DivMod64(cp, a * 4096 + b * 64 + c, d);
    DivMod64(a * 4096 + b * 64 + c, a * 64 + b, c);
    DivMod64(a * 64 + b, a, b);
    assert cp / 4096 == a * 64 + b;
    assert cp / 262144 == a;
  }

  /** A well-formed sequence holds a scalar value, and is exactly that value's encoding. */
  lemma DecodeFirstEncode(s: seq<byte>)
    requires Utf8Width(s) > 0
    ensures Scalar(DecodeFirst(s)) && Encode(DecodeFirst(s)) == s[..Utf8Width(s)]
  {
    var w := Utf8Width(s);
    if w == 2 {
      DecodeTwo(s);
    } else if w == 3 {
      DecodeThree(s);
    } else if w == 4 {
      DecodeFour(s);
    }
  }

  /** The scalar values of well-formed bytes. */
  function DecodeAll(s: seq<byte>): (r: seq<nat>)
    requires ValidUtf8(s)
    decreases |s|
  {
    if s == [] then [] else [DecodeFirst(s)] + DecodeAll(s[Utf8Width(s)..])
  }

  /** A scalar value before scalar values: all scalar, encoded one after the other. */
  lemma EncodeAllCons(x: nat, t: seq<nat>)
    requires Scalar(x) && AllScalar(t)
    ensures AllScalar([x] + t) && EncodeAll([x] + t) == Encode(x) + EncodeAll(t)
  {
    var r := [x] + t;
    forall i | 0 <= i < |r| ensures Scalar(r[i]) {
      if i > 0 { assert r[i] == t[i - 1]; }
    }
    assert r[1..] == t;
  }

  /** Decoding well-formed bytes gives scalar values whose encoding is those bytes. */
  lemma {:induction false} DecodeAllEncode(s: seq<byte>)
    requires ValidUtf8(s)
    ensures AllScalar(DecodeAll(s)) && EncodeAll(DecodeAll(s)) == s
    decreases |s|
  {
    if s != [] {
      var w := Utf8Width(s);
      var head, tail := s[..w], s[w..];
      assert head + tail == s;
      DecodeFirstEncode(s);
      DecodeAllEncode(tail);
      EncodeAllCons(DecodeFirst(s), DecodeAll(tail));
    }
  }

  /** `from_utf8` accepts exactly the encodings of strings of scalar values. */
  lemma ValidUtf8Iff(s: seq<byte>)
    ensures ValidUtf8(s) <==> exists cps :: AllScalar(cps) && EncodeAll(cps) == s
  {
    if ValidUtf8(s) {
      DecodeAllEncode(s);
    }
    forall cps | AllScalar(cps) && EncodeAll(cps) == s ensures ValidUtf8(s) {
      EncodeAllValid(cps);
    }
  }

  /** A lone `FF`, an overlong `C0 80` and the surrogate `ED A0 80` are refused. */
  lemma InvalidUtf8Examples()
    ensures !ValidUtf8([0xFF]) && !ValidUtf8([0xC0, 0x80]) && !ValidUtf8([0xED, 0xA0, 0x80])
  {
  }

  /**
   * The loop of `epubcheck` over the lines of the tool's output: every line
   * becomes a message, and the most severe severity is kept. `None` where
   * output that is not UTF-8, or a malformed line, makes the source panic.
   */
  method ReadRun(err: seq<byte>) returns (r: Option<EpubcheckResult>)
    ensures r.Some? <==> ValidUtf8(err) && ReadLines(Lines(err), ParseLine).Some?
    ensures r.Some? ==> r.value.msgs == ReadLines(Lines(err), ParseLine).value
    ensures r.Some? ==> r.value.mostSevere == MostSevere(r.value.msgs)
  {
    if !ValidUtf8(err) {
      return None;
    }
    var lines := Lines(err);
    var parse := ParseLine;
    var msgs: seq<Message> := [];
    var mostSevere: Option<Severity> := None;
    for n := 0 to |lines|
      invariant ReadLines(lines[..n], parse) == Some(msgs)
      invariant mostSevere == MostSevere(msgs)
    {
      var m := parse(lines[n]);
      ReadStep(lines, parse, n, msgs);
      if m.None? {
        NoneExtends(lines, parse, n + 1);
        return None;
      }
      MostSevereStep(msgs, m.value);
      mostSevere := Some(Max(if mostSevere.None? then Info else mostSevere.value, m.value.sev));
      msgs := msgs + [m.value];
    }
    assert lines[..|lines|] == lines;
    r := Some(EpubcheckResult(mostSevere, msgs));
  }

  lemma ReadStep(lines: seq<seq<byte>>, parse: seq<byte> -> Option<Message>, n: nat, msgs: seq<Message>)
    requires n < |lines| && ReadLines(lines[..n], parse) == Some(msgs)
    ensures ReadLines(lines[..n + 1], parse) == if parse(lines[n]).None? then None else Some(msgs + [parse(lines[n]).value])
  {
    assert lines[..n + 1][..n] == lines[..n];
  }

  lemma MostSevereStep(msgs: seq<Message>, m: Message)
    ensures MostSevere(msgs + [m]) == Some(Max(if MostSevere(msgs).None? then Info else MostSevere(msgs).value, m.sev))
  {
    assert (msgs + [m])[..|msgs|] == msgs;
  }

  /** Once a line fails, every longer prefix fails. */
  lemma {:induction false} NoneExtends(lines: seq<seq<byte>>, parse: seq<byte> -> Option<Message>, n: nat)
    requires 0 < n <= |lines| && ReadLines(lines[..n], parse).None?
    ensures ReadLines(lines, parse).None?
    decreases |lines| - n
  {
    if n < |lines| {
      assert lines[..n + 1][..n] == lines[..n];
      NoneExtends(lines, parse, n + 1);
    } else {
      assert lines[..n] == lines;
    }
  }
}
