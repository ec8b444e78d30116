/**
 * The rule language of src/def/sed.rs: a rule string
 * `[sdpP]?[;/]selector?/regex/replacement/` is compiled into a `Sed`, and a
 * `Sed` is rendered back to its rule string.
 *
 * Selectors and regular expressions are kept as their source strings; whether
 * they compile is the engine's verdict. The scanner treats a backslash as
 * pulling the next character into the segment, so an escaped `/` does not end
 * one.
 */
module SedLang {
  import opened Wrappers
  import opened Strings
  import opened Dom

  datatype Op = Match | Delete | Print | PrintAll | Replace(rep: string)

  datatype Sed = Sed(op: Op, sel: Option<string>, reg: Option<string>)

  datatype ParseError =
    | EmptyString
    | InvalidOp(c: char)
    | NoSelector
    | ExpectedSeparator(c: char)
    | DanglingBackslash
    | EmptySelector
    | BadSelector(sel: string)
    | NoRegexEnd
    | EmptyRegex
    | BadRegex(re: string)
    | SubstituteWithoutRegex
    | NoReplacementEnd
    | PrintWithoutRegex
    | NotMatcher

  const OP_CHARS: string := "sdpP/;"

  /** `PartialEq`: the same operation, the same regular-expression source and the same selector. */
  function Equal(a: Sed, b: Sed): (r: bool)
    ensures r <==> a == b
  {
    a.op == b.op && a.reg == b.reg && a.sel == b.sel
  }

  /**
   * The position of the first unescaped `/` at or after `i`, or `|s|` when
   * there is none; a backslash as the last character is an error.
   */
  function Scan(s: string, i: nat): (r: Result<nat, ParseError>)
    requires i <= |s|
    ensures r.Ok? ==> i <= r.value <= |s| && (r.value < |s| ==> s[r.value] == '/')
    decreases |s| - i
  {
    if i == |s| then Ok(i)
    else if s[i] == '/' then Ok(i)
    else if s[i] == '\\' then (if i + 1 == |s| then Err(DanglingBackslash) else Scan(s, i + 2))
    else Scan(s, i + 1)
  }

  /** `trim().is_empty()`: every character is whitespace (`TrimEmpty` shows the two agree). */
  predicate Blank(x: string)
  {
    forall i :: 0 <= i < |x| ==> IsWhitespace(x[i])
  }

  lemma BlankIffTrimEmpty(x: string)
    ensures Blank(x) <==> Trim(x) == []
  {
    TrimEmpty(x);
  }

  /** A segment scanned on its own reaches its end: it has no unescaped `/` and does not end in a lone backslash. */
  predicate Clean(seg: string)
  {
    Scan(seg, 0) == Ok(|seg|)
  }

  /** The segment a scan delimits is clean. */
  lemma {:induction false} ScanClean(s: string, start: nat, k: nat, j: nat)
    requires start <= k <= |s| && Scan(s, k) == Ok(j)
    ensures Scan(s[start..j], k - start) == Ok(j - start)
    ensures k == start ==> Clean(s[start..j])
    decreases |s| - k
  {
    var t := s[start..j];
    if k < j {
      assert t[k - start] == s[k];
      if s[k] == '\\' {
        assert t[k - start + 1] == s[k + 1];
        ScanClean(s, start, k + 2, j);
      } else {
        ScanClean(s, start, k + 1, j);
      }
    }
  }

  lemma ScanCleanAt(s: string, start: nat)
    requires start <= |s|
    ensures Scan(s, start).Ok? ==> Clean(s[start..Scan(s, start).value])
  {
    if Scan(s, start).Ok? {
      ScanClean(s, start, start, Scan(s, start).value);
    }
  }

  /** The state after a segment: what it yielded, where scanning resumes, and whether a `/` ended it. */
  datatype Cursor = Cursor(seg: Option<string>, next: nat, slash: bool)

  /** The selector after `;`: up to the next unescaped `/` or the end, non-blank, and accepted by the engine. */
  function SelectorSeg(s: string, start: nat, eng: Engine): (r: Result<Cursor, ParseError>)
    requires start <= |s|
    ensures r.Ok? ==> r.value.seg.Some? && (r.value.slash ==> r.value.next <= |s|)
  {
    match Scan(s, start)
    case Err(e) => Err(e)
    case Ok(j) =>
      var sel := s[start..j];
      if Blank(sel) then Err(EmptySelector)
      else if !eng.selectorParses(sel) then Err(BadSelector(sel))
      else Ok(Cursor(Some(sel), j + 1, j < |s|))
  }

  /** The regular expression: up to an unescaped `/` that must exist, non-empty, and accepted by the engine. */
  function RegexSeg(s: string, start: nat, eng: Engine): (r: Result<Cursor, ParseError>)
    requires start <= |s|
    ensures r.Ok? ==> r.value.seg.Some? && r.value.next <= |s|
  {
    match Scan(s, start)
    case Err(e) => Err(e)
    case Ok(j) =>
      if j == |s| then Err(NoRegexEnd)
      else
        var re := s[start..j];
        if re == [] then Err(EmptyRegex)
        else if !eng.regexParses(re) then Err(BadRegex(re))
        else Ok(Cursor(Some(re), j + 1, true))
  }

  /** The replacement: up to an unescaped `/` that must exist; that `/` is only peeked, so what follows is ignored. */
  function ReplacementSeg(s: string, start: nat): (r: Result<string, ParseError>)
    requires start <= |s|
  {
    match Scan(s, start)
    case Err(e) => Err(e)
    case Ok(j) => if j == |s| then Err(NoReplacementEnd) else Ok(s[start..j])
  }

  function OpOf(opk: char, rep: string): Op
  {
    match opk
    case 'd' => Delete
    case 's' => Replace(rep)
    case 'p' => Print
    case 'P' => PrintAll
    case _ => Match
  }

  /** `parse_sed`, stated as a function of the rule string: the op character and the separator after it. */
  function Parse(s: string, eng: Engine): Result<Sed, ParseError>
  {
    if s == [] then Err(EmptyString)
    else if s[0] !in OP_CHARS then Err(InvalidOp(s[0]))
    else if s[0] != '/' && s[0] != ';' && |s| < 2 then Err(NoSelector)
    else ParseFrom(s, if s[0] == '/' || s[0] == ';' then 0 else 1, eng)
  }

  /** After the separator at `i`: a selector when it is `;`. */
  function ParseFrom(s: string, i: nat, eng: Engine): Result<Sed, ParseError>
    requires i < |s|
  {
    var selsep := s[i];
    if selsep != '/' && selsep != ';' then Err(ExpectedSeparator(selsep))
    else
      var c1 := if selsep == ';' then SelectorSeg(s, i + 1, eng) else Ok(Cursor(None, i + 1, true));
      if c1.Err? then Err(c1.error) else AfterSelector(s, c1.value, eng)
  }

  /** After the selector: a regular expression when a `/` follows. */
  function AfterSelector(s: string, c1: Cursor, eng: Engine): Result<Sed, ParseError>
    requires s != [] && (c1.slash ==> c1.next <= |s|)
  {
    var c2 := if c1.slash then RegexSeg(s, c1.next, eng) else Ok(Cursor(None, c1.next, false));
    if c2.Err? then Err(c2.error) else AfterRegex(s, c1.seg, c2.value)
  }

  /** After the regular expression: the replacement of `s`, then the op and its requirement. */
  function AfterRegex(s: string, sel: Option<string>, c2: Cursor): Result<Sed, ParseError>
    requires s != [] && (c2.seg.Some? ==> c2.next <= |s|)
  {
    var rep := if s[0] != 's' then Ok("")
      else if c2.seg.None? then Err(SubstituteWithoutRegex)
      else ReplacementSeg(s, c2.next);
    if rep.Err? then Err(rep.error)
    else
      var op := OpOf(s[0], rep.value);
      if op.Print? && c2.seg.None? then Err(PrintWithoutRegex)
      else Ok(Sed(op, sel, c2.seg))
  }

  /** The `while let … next_if` loop: advance over non-`/` characters, pulling in the one after each backslash. */
  method ScanLoop(s: string, start: nat) returns (r: Result<nat, ParseError>)
    requires start <= |s|
    ensures r == Scan(s, start)
  {
    var k := start;
    while k < |s| && s[k] != '/'
      invariant start <= k <= |s|
      invariant Scan(s, k) == Scan(s, start)
      decreases |s| - k
    {
      if s[k] == '\\' {
        if k + 1 == |s| {
          return Err(DanglingBackslash);
        }
        k := k + 2;
      } else {
        k := k + 1;
      }
    }
    return Ok(k);
  }

  /** The selector block: scan, take the slice, reject a blank or uncompilable selector. */
  method SelectorPhase(s: string, start: nat, eng: Engine) returns (r: Result<Cursor, ParseError>)
    requires start <= |s|
    ensures r == SelectorSeg(s, start, eng)
  {
    var scan := ScanLoop(s, start);
    if scan.Err? {
      return Err(scan.error);
    }
    var endi := scan.value;
    // the end of input stands in for a separator that is not `/`
    var endc := if endi < |s| then '/' else '\0';
    var selStr := s[start..endi];
    if Blank(selStr) {
      return Err(EmptySelector);
    }
    if !eng.selectorParses(selStr) {
      return Err(BadSelector(selStr));
    }
    return Ok(Cursor(Some(selStr), endi + 1, endc == '/'));
  }

  /** The regular-expression block: scan, require the closing `/`, reject an empty or uncompilable one. */
  method RegexPhase(s: string, start: nat, eng: Engine) returns (r: Result<Cursor, ParseError>)
    requires start <= |s|
    ensures r == RegexSeg(s, start, eng)
  {
    var scan := ScanLoop(s, start);
    if scan.Err? {
      return Err(scan.error);
    }
    var endi := scan.value;
    if endi == |s| {
      return Err(NoRegexEnd);
    }
    var regStr := s[start..endi];
    if regStr == [] {
      return Err(EmptyRegex);
    }
    if !eng.regexParses(regStr) {
      return Err(BadRegex(regStr));
    }
    return Ok(Cursor(Some(regStr), endi + 1, true));
  }

  /** The replacement block: scan and peek the closing `/`. */
  method ReplacementPhase(s: string, start: nat) returns (r: Result<string, ParseError>)
    requires start <= |s|
    ensures r == ReplacementSeg(s, start)
  {
    var scan := ScanLoop(s, start);
    if scan.Err? {
      return Err(scan.error);
    }
    if scan.value == |s| {
      return Err(NoReplacementEnd);
    }
    return Ok(s[start..scan.value]);
  }

  /** `parse_sed` as the source runs it: the op, the separator, then the three blocks in turn. */
  method ParseSed(s: string, eng: Engine) returns (r: Result<Sed, ParseError>)
    ensures r == Parse(s, eng)
  {
    if |s| == 0 {
      return Err(EmptyString);
    }
    var opk := s[0];
    if opk !in OP_CHARS {
      return Err(InvalidOp(opk));
    }
    var i: nat;
    if opk == '/' || opk == ';' {
      i := 0;
    } else {
      if |s| < 2 {
        return Err(NoSelector);
      }
      i := 1;
    }
    assert Parse(s, eng) == ParseFrom(s, i, eng);
    var selsep := s[i];
    if selsep != '/' && selsep != ';' {
      return Err(ExpectedSeparator(selsep));
    }
    var c1 := Cursor(None, i + 1, true);
    if selsep == ';' {
      var sel := SelectorPhase(s, i + 1, eng);
      if sel.Err? {
        return Err(sel.error);
      }
      c1 := sel.value;
    }
    assert Parse(s, eng) == AfterSelector(s, c1, eng);
    var c2 := Cursor(None, c1.next, false);
    if c1.slash {
      var reg := RegexPhase(s, c1.next, eng);
      if reg.Err? {
        return Err(reg.error);
      }
      c2 := reg.value;
    }
    assert Parse(s, eng) == AfterRegex(s, c1.seg, c2);
    var rep := "";
    if opk == 's' {
      if c2.seg.None? {
        return Err(SubstituteWithoutRegex);
      }
      var res := ReplacementPhase(s, c2.next);
      if res.Err? {
        return Err(res.error);
      }
      rep := res.value;
    }
    var op := OpOf(opk, rep);
    if op.Print? && c2.seg.None? {
      return Err(PrintWithoutRegex);
    }
    return Ok(Sed(op, c1.seg, c2.seg));
  }

  function OpPrefix(op: Op): string
  {
    match op
    case Match => ""
    case Delete => "d"
    case Print => "p"
    case PrintAll => "P"
    case Replace(_) => "s"
  }

  /** `Display`: the op letter (none for a plain match), `;selector`, `/regex/`, and `replacement/`. */
  function Display(p: Sed): string
  {
    OpPrefix(p.op)
    + (if p.sel.Some? then ";" + p.sel.value else "")
    + (if p.reg.Some? then "/" + p.reg.value + "/" else "")
    + (if p.op.Replace? then p.op.rep + "/" else "")
  }

  /** What every parsed rule satisfies: clean, accepted segments, and the op's requirements. */
  predicate Canonical(p: Sed, eng: Engine)
  {
    (p.sel.Some? || p.reg.Some?)
    && (p.sel.Some? ==> Clean(p.sel.value) && !Blank(p.sel.value) && eng.selectorParses(p.sel.value))
    && (p.reg.Some? ==> Clean(p.reg.value) && p.reg.value != [] && eng.regexParses(p.reg.value))
    && (p.op.Replace? ==> p.reg.Some? && Clean(p.op.rep))
    && (p.op.Print? ==> p.reg.Some?)
  }

  /** Scanning a clean segment inside a longer string stops right after it, at a `/` or the end. */
  lemma {:induction false} ScanInside(pre: string, seg: string, post: string, k: nat)
    requires k <= |seg| && Scan(seg, k) == Ok(|seg|)
    requires post == [] || post[0] == '/'
    ensures Scan(pre + seg + post, |pre| + k) == Ok(|pre| + |seg|)
    decreases |seg| - k
  {
    var s := pre + seg + post;
    if k < |seg| {
      assert s[|pre| + k] == seg[k];
      if seg[k] == '\\' {
        assert s[|pre| + k + 1] == seg[k + 1];
        ScanInside(pre, seg, post, k + 2);
      } else {
        ScanInside(pre, seg, post, k + 1);
      }
    } else if post != [] {
      assert s[|pre| + |seg|] == '/';
    }
  }

  /** The scan of a clean segment followed by a `/` or the end finds that segment. */
  lemma CleanSegment(pre: string, seg: string, post: string)
    requires Clean(seg)
    requires post == [] || post[0] == '/'
    ensures Scan(pre + seg + post, |pre|) == Ok(|pre| + |seg|)
    ensures (pre + seg + post)[|pre|..|pre| + |seg|] == seg
  {
    ScanInside(pre, seg, post, 0);
    assert (pre + seg + post)[|pre|..|pre| + |seg|] == seg;
  }

  /** The four parts `Display` concatenates. */
  function SelPart(p: Sed): string
  {
    if p.sel.Some? then ";" + p.sel.value else ""
  }

  function RegPart(p: Sed): string
  {
    if p.reg.Some? then "/" + p.reg.value + "/" else ""
  }

  function RepPart(p: Sed): string
  {
    if p.op.Replace? then p.op.rep + "/" else ""
  }

  lemma DisplayParts(p: Sed)
    ensures Display(p) == OpPrefix(p.op) + SelPart(p) + RegPart(p) + RepPart(p)
  {
  }

  /** A clean, non-blank, accepted selector followed by `/` or the end is read as itself. */
  lemma SelectorOf(pre: string, sel: string, post: string, eng: Engine)
    requires Clean(sel) && !Blank(sel) && eng.selectorParses(sel)
    requires post == [] || post[0] == '/'
    ensures SelectorSeg(pre + sel + post, |pre|, eng) == Ok(Cursor(Some(sel), |pre| + |sel| + 1, post != []))
  {
    var s := pre + sel + post;
    CleanSegment(pre, sel, post);
    var j := |pre| + |sel|;
    assert s[|pre|..j] == sel;
    assert j < |s| <==> post != [];
  }

  /** A clean, non-empty, accepted regular expression followed by `/` is read as itself. */
  lemma RegexOf(pre: string, re: string, post: string, eng: Engine)
    requires Clean(re) && re != [] && eng.regexParses(re)
    requires post != [] && post[0] == '/'
    ensures RegexSeg(pre + re + post, |pre|, eng) == Ok(Cursor(Some(re), |pre| + |re| + 1, true))
  {
    CleanSegment(pre, re, post);
  }

  /** A clean replacement followed by `/` is read as itself. */
  lemma ReplacementOf(pre: string, rep: string, post: string)
    requires Clean(rep)
    requires post != [] && post[0] == '/'
    ensures ReplacementSeg(pre + rep + post, |pre|) == Ok(rep)
  {
    CleanSegment(pre, rep, post);
  }

  /** The op character and the separator of a rendering are read as the rule's. */
  lemma DisplayHead(p: Sed, eng: Engine)
    requires Canonical(p, eng)
    ensures |OpPrefix(p.op)| < |Display(p)|
    ensures Parse(Display(p), eng) == ParseFrom(Display(p), |OpPrefix(p.op)|, eng)
    ensures Display(p)[|OpPrefix(p.op)|] == if p.sel.Some? then ';' else '/'
  {
    DisplayParts(p);
    var d := Display(p);
    var i := |OpPrefix(p.op)|;
    assert d[i] == (if p.sel.Some? then ';' else '/');
    assert i == 1 ==> d[0] == OpPrefix(p.op)[0];
  }

  /** Where the regular expression of a rendering starts, and whether a `/` announces it. */
  function AfterSelCursor(p: Sed): Cursor
  {
    Cursor(p.sel, |OpPrefix(p.op)| + |SelPart(p)| + 1, p.reg.Some?)
  }

  /** A rendering with a selector is the op, `;`, the selector, and what follows it. */
  lemma DisplaySplitSel(p: Sed)
    requires p.sel.Some?
    ensures Display(p) == (OpPrefix(p.op) + ";") + p.sel.value + (RegPart(p) + RepPart(p))
  {
    DisplayParts(p);
  }

  lemma DisplayAfterOp(p: Sed, eng: Engine)
    requires Canonical(p, eng)
    ensures |OpPrefix(p.op)| < |Display(p)|
    ensures AfterSelCursor(p).slash ==> AfterSelCursor(p).next <= |Display(p)|
    ensures ParseFrom(Display(p), |OpPrefix(p.op)|, eng) == AfterSelector(Display(p), AfterSelCursor(p), eng)
  {
    DisplayHead(p, eng);
    DisplayParts(p);
    var i := |OpPrefix(p.op)|;
    if p.sel.Some? {
      DisplaySelector(p, eng);
    } else {
      assert AfterSelCursor(p) == Cursor(None, i + 1, true);
    }
  }

  /** The selector of a canonical rendering is read back with the cursor after it. */
  lemma DisplaySelector(p: Sed, eng: Engine)
    requires Canonical(p, eng) && p.sel.Some?
    ensures |OpPrefix(p.op)| + 1 <= |Display(p)|
    ensures SelectorSeg(Display(p), |OpPrefix(p.op)| + 1, eng) == Ok(AfterSelCursor(p))
  {
    DisplaySplitSel(p);
    var post := RegPart(p) + RepPart(p);
    SelectorOf(OpPrefix(p.op) + ";", p.sel.value, post, eng);
  }

  /** Where the replacement of a rendering starts. */
  function AfterRegCursor(p: Sed): Cursor
  {
    if p.reg.Some? then Cursor(p.reg, |OpPrefix(p.op)| + |SelPart(p)| + |RegPart(p)|, true)
    else Cursor(None, AfterSelCursor(p).next, false)
  }

  /** A rendering with a regular expression is what precedes it, `/`, the expression, `/`, and the replacement part. */
  lemma DisplaySplitReg(p: Sed)
    requires p.reg.Some?
    ensures Display(p) == (OpPrefix(p.op) + SelPart(p) + "/") + p.reg.value + ("/" + RepPart(p))
  {
    DisplayParts(p);
  }

  lemma DisplayAfterSel(p: Sed, eng: Engine)
    requires Canonical(p, eng)
    ensures AfterSelCursor(p).slash ==> AfterSelCursor(p).next <= |Display(p)|
    ensures AfterRegCursor(p).seg.Some? ==> AfterRegCursor(p).next <= |Display(p)|
    ensures Display(p) != []
    ensures AfterSelector(Display(p), AfterSelCursor(p), eng) == AfterRegex(Display(p), p.sel, AfterRegCursor(p))
  {
    DisplayParts(p);
    if p.reg.Some? {
      DisplaySplitReg(p);
      var pre := OpPrefix(p.op) + SelPart(p) + "/";
      RegexOf(pre, p.reg.value, "/" + RepPart(p), eng);
      assert RegexSeg(Display(p), AfterSelCursor(p).next, eng) == Ok(AfterRegCursor(p));
    }
  }

  /** A rendering with a replacement ends in the replacement and `/`. */
  lemma DisplaySplitRep(p: Sed)
    requires p.op.Replace?
    ensures Display(p) == (OpPrefix(p.op) + SelPart(p) + RegPart(p)) + p.op.rep + "/"
  {
    DisplayParts(p);
  }

  lemma DisplayAfterReg(p: Sed, eng: Engine)
    requires Canonical(p, eng)
    ensures AfterRegCursor(p).seg.Some? ==> AfterRegCursor(p).next <= |Display(p)|
    ensures Display(p) != []
    ensures AfterRegex(Display(p), p.sel, AfterRegCursor(p)) == Ok(p)
  {
    DisplayParts(p);
    var d := Display(p);
    assert d[0] == if p.op.Match? then (if p.sel.Some? then ';' else '/') else OpPrefix(p.op)[0];
    assert OpOf(d[0], if p.op.Replace? then p.op.rep else "") == p.op;
    if p.op.Replace? {
      DisplaySplitRep(p);
      ReplacementOf(OpPrefix(p.op) + SelPart(p) + RegPart(p), p.op.rep, "/");
    }
  }

  /** Rendering a canonical rule and parsing the rendering gives the rule back. */
  lemma ParseDisplay(p: Sed, eng: Engine)
    requires Canonical(p, eng)
    ensures Parse(Display(p), eng) == Ok(p)
  {
    DisplayHead(p, eng);
    DisplayAfterOp(p, eng);
    DisplayAfterSel(p, eng);
    DisplayAfterReg(p, eng);
  }

  /** What a selector segment that is read successfully satisfies. */
  lemma SelectorSegOk(s: string, start: nat, eng: Engine)
    requires start <= |s| && SelectorSeg(s, start, eng).Ok?
    ensures var c := SelectorSeg(s, start, eng).value; var sel := c.seg.value;
      start < c.next <= |s| + 1 && sel == s[start..c.next - 1] && Clean(sel) && !Blank(sel) && eng.selectorParses(sel)
      && (c.slash <==> c.next <= |s|) && (c.slash ==> s[c.next - 1] == '/')
  {
    ScanCleanAt(s, start);
  }

  /** What a regular-expression segment that is read successfully satisfies. */
  lemma RegexSegOk(s: string, start: nat, eng: Engine)
    requires start <= |s| && RegexSeg(s, start, eng).Ok?
    ensures var c := RegexSeg(s, start, eng).value; var re := c.seg.value;
      start < c.next && re == s[start..c.next - 1] && Clean(re) && re != [] && eng.regexParses(re)
      && c.slash && s[c.next - 1] == '/'
  {
    ScanCleanAt(s, start);
  }

  /** What a replacement segment that is read successfully satisfies. */
  lemma ReplacementSegOk(s: string, start: nat)
    requires start <= |s| && ReplacementSeg(s, start).Ok?
    ensures var rep := ReplacementSeg(s, start).value;
      start + |rep| < |s| && rep == s[start..start + |rep|] && Clean(rep) && s[start + |rep|] == '/'
  {
    ScanCleanAt(s, start);
  }

  /** The op letter that starts a rule string: none for a plain match. */
  function OpLetter(c: char): string
  {
    if c == '/' || c == ';' then "" else [c]
  }

  /** The last stage: the op comes from the first character, with its requirements met, and the replacement comes next in the string. */
  lemma AfterRegexOk(s: string, sel: Option<string>, c2: Cursor)
    requires s != [] && s[0] in OP_CHARS && (c2.seg.Some? ==> c2.next <= |s|) && AfterRegex(s, sel, c2).Ok?
    ensures var p := AfterRegex(s, sel, c2).value;
      p.sel == sel && p.reg == c2.seg
      && OpPrefix(p.op) == OpLetter(s[0])
      && (p.op.Print? ==> p.reg.Some?)
      && (p.op.Replace? ==> p.reg.Some? && Clean(p.op.rep))
      && (p.reg.Some? ==> RepPart(p) <= s[c2.next..])
      && (p.reg.None? ==> RepPart(p) == "")
  {
    var p := AfterRegex(s, sel, c2).value;
    if s[0] == 's' {
      ReplacementSegOk(s, c2.next);
      var rep := p.op.rep;
      SlashAfter(s, c2.next, rep);
    }
  }

  /** A slice of `s` followed by `/` in `s`, with that `/`, starts what follows its start. */
  lemma SlashAfter(s: string, n: nat, rep: string)
    requires n + |rep| < |s| && rep == s[n..n + |rep|] && s[n + |rep|] == '/'
    ensures rep + "/" <= s[n..]
  {
    var t := s[n..];
    assert rep + "/" == t[..|rep| + 1];
  }

  /** `b` extends `a` when `a` starts `t` and `b` starts what follows. */
  lemma PrefixJoin<T>(a: seq<T>, b: seq<T>, t: seq<T>, k: nat)
    requires k <= |t| && a == t[..k] && b <= t[k..]
    ensures a + b <= t
  {
    assert t == t[..k] + t[k..];
  }

  /** The middle stage: a regular expression exactly when a `/` followed the selector. */
  lemma AfterSelectorOk(s: string, c1: Cursor, eng: Engine)
    requires s != [] && s[0] in OP_CHARS && 0 < c1.next <= |s| + 1
    requires (c1.slash ==> c1.next <= |s| && s[c1.next - 1] == '/') && AfterSelector(s, c1, eng).Ok?
    ensures var p := AfterSelector(s, c1, eng).value;
      p.sel == c1.seg
      && OpPrefix(p.op) == OpLetter(s[0])
      && (p.op.Print? ==> p.reg.Some?)
      && (p.op.Replace? ==> p.reg.Some? && Clean(p.op.rep))
      && (p.reg.Some? <==> c1.slash)
      && (p.reg.Some? ==> Clean(p.reg.value) && p.reg.value != [] && eng.regexParses(p.reg.value))
      && RegPart(p) + RepPart(p) <= s[c1.next - 1..]
  {
    var p := AfterSelector(s, c1, eng).value;
    if c1.slash {
      RegexSegOk(s, c1.next, eng);
      var c2 := RegexSeg(s, c1.next, eng).value;
      assert AfterSelector(s, c1, eng) == AfterRegex(s, c1.seg, c2);
      AfterRegexOk(s, c1.seg, c2);
      var t := s[c1.next - 1..];
      var k := c2.next - (c1.next - 1);
      assert RegPart(p) == t[..k];
      assert t[k..] == s[c2.next..];
      PrefixJoin(RegPart(p), RepPart(p), t, k);
    } else {
      var c2 := Cursor(None, c1.next, false);
      assert AfterSelector(s, c1, eng) == AfterRegex(s, c1.seg, c2);
      AfterRegexOk(s, c1.seg, c2);
    }
  }

  /** What a rule read from the separator at `i` satisfies: it is canonical and its rendering after the op letter starts `s[i..]`. */
  predicate ReadFrom(s: string, i: nat, p: Sed, eng: Engine)
    requires i <= |s| && s != []
  {
    OpPrefix(p.op) == OpLetter(s[0])
    && Canonical(p, eng)
    && SelPart(p) + RegPart(p) + RepPart(p) <= s[i..]
  }

  /** The first stage with a selector: the selector segment `c1` is read, then the rest gives `p`. */
  lemma ParseFromSelOk(s: string, i: nat, c1: Cursor, p: Sed, eng: Engine)
    requires i < |s| && s[0] in OP_CHARS && s[i] == ';'
    requires SelectorSeg(s, i + 1, eng) == Ok(c1) && AfterSelector(s, c1, eng) == Ok(p)
    ensures ReadFrom(s, i, p, eng)
  {
    SelectorSegOk(s, i + 1, eng);
    AfterSelectorOk(s, c1, eng);
    SelPrefix(s, i, c1.next - 1, p);
  }

  /** The selector part of the rendering, then the rest, starts the string at the `;`. */
  lemma SelPrefix(s: string, i: nat, j: nat, p: Sed)
    requires i < j <= |s| && s[i] == ';' && p.sel == Some(s[i + 1..j])
    requires RegPart(p) + RepPart(p) <= s[j..]
    ensures SelPart(p) + RegPart(p) + RepPart(p) <= s[i..]
  {
    MarkedJoin(s, i, j, RegPart(p) + RepPart(p));
    assert SelPart(p) + RegPart(p) + RepPart(p) == [s[i]] + s[i + 1..j] + (RegPart(p) + RepPart(p));
  }

  /** A marker at `i`, the text up to `j`, then a prefix of what follows `j`, is a prefix of what follows `i`. */
  lemma MarkedJoin<T>(s: seq<T>, i: nat, j: nat, rest: seq<T>)
    requires i < j <= |s| && rest <= s[j..]
    ensures [s[i]] + s[i + 1..j] + rest <= s[i..]
  {
    assert s[i..] == [s[i]] + s[i + 1..j] + s[j..];
  }

  /** The first stage without a selector. */
  lemma ParseFromSlashOk(s: string, i: nat, p: Sed, eng: Engine)
    requires i < |s| && s[0] in OP_CHARS && s[i] == '/'
    requires AfterSelector(s, Cursor(None, i + 1, true), eng) == Ok(p)
    ensures ReadFrom(s, i, p, eng)
  {
    AfterSelectorOk(s, Cursor(None, i + 1, true), eng);
    assert p.sel == None && p.reg.Some?;
    assert Canonical(p, eng);
    assert SelPart(p) + RegPart(p) + RepPart(p) == RegPart(p) + RepPart(p);
  }

  /** The op letter, then the rest of the rendering, starts the string. */
  lemma HeadPrefix(s: string, i: nat, p: Sed)
    requires i <= |s| && OpPrefix(p.op) == s[..i] && SelPart(p) + RegPart(p) + RepPart(p) <= s[i..]
    ensures Display(p) <= s
  {
    var rest := SelPart(p) + RegPart(p) + RepPart(p);
    PrefixJoin(OpPrefix(p.op), rest, s, i);
    assert Display(p) == OpPrefix(p.op) + rest by { DisplayParts(p); }
  }

  /** Every rule `parse_sed` accepts is canonical, and its rendering is a prefix of the rule string: text after the last segment is ignored. */
  lemma ParseOk(s: string, eng: Engine)
    requires Parse(s, eng).Ok?
    ensures Canonical(Parse(s, eng).value, eng)
    ensures Display(Parse(s, eng).value) <= s
  {
    var p := Parse(s, eng).value;
    var i := if s[0] == '/' || s[0] == ';' then 0 else 1;
    assert Parse(s, eng) == ParseFrom(s, i, eng);
    if s[i] == ';' {
      var c1 := SelectorSeg(s, i + 1, eng).value;
      assert ParseFrom(s, i, eng) == AfterSelector(s, c1, eng);
      ParseFromSelOk(s, i, c1, p, eng);
    } else {
      assert ParseFrom(s, i, eng) == AfterSelector(s, Cursor(None, i + 1, true), eng);
      ParseFromSlashOk(s, i, p, eng);
    }
    assert OpLetter(s[0]) == s[..i];
    HeadPrefix(s, i, p);
  }

  /** Reading a rendering back is the identity exactly on canonical rules. */
  lemma ParseDisplayIff(p: Sed, eng: Engine)
    ensures Parse(Display(p), eng) == Ok(p) <==> Canonical(p, eng)
  {
    if Parse(Display(p), eng) == Ok(p) {
      ParseOk(Display(p), eng);
    }
    if Canonical(p, eng) {
      ParseDisplay(p, eng);
    }
  }

  /** `idempotent_display`: rendering an accepted rule and reading it back gives the same rule. */
  lemma DisplayIdempotent(s: string, eng: Engine)
    requires Parse(s, eng).Ok?
    ensures Parse(Display(Parse(s, eng).value), eng) == Parse(s, eng)
  {
    ParseOk(s, eng);
    ParseDisplay(Parse(s, eng).value, eng);
  }

  /** `idempotent_display`, the delete rule: with a selector and a regular expression it renders back to its own text. */
  lemma DisplayIdempotentDelete(sel: string, re: string, eng: Engine)
    requires Clean(sel) && !Blank(sel) && eng.selectorParses(sel)
    requires Clean(re) && re != [] && eng.regexParses(re)
    ensures Parse("d;" + sel + "/" + re + "/", eng) == Ok(Sed(Delete, Some(sel), Some(re)))
  {
    var p := Sed(Delete, Some(sel), Some(re));
    assert Display(p) == "d;" + sel + "/" + re + "/" by { DisplayParts(p); }
    ParseDisplay(p, eng);
  }

  /** `idempotent_display`, the substitute rule. */
  lemma DisplayIdempotentReplace(sel: string, re: string, rep: string, eng: Engine)
    requires Clean(sel) && !Blank(sel) && eng.selectorParses(sel)
    requires Clean(re) && re != [] && eng.regexParses(re) && Clean(rep)
    ensures Parse("s;" + sel + "/" + re + "/" + rep + "/", eng) == Ok(Sed(Replace(rep), Some(sel), Some(re)))
  {
    var p := Sed(Replace(rep), Some(sel), Some(re));
    assert Display(p) == "s;" + sel + "/" + re + "/" + rep + "/" by { DisplayParts(p); }
    ParseDisplay(p, eng);
  }

  /** `parse_fail`, the rules rejected whatever the engines accept. */
  lemma ParseFailShort(eng: Engine)
    ensures Parse("", eng) == Err(EmptyString)
    ensures Parse("/", eng) == Err(NoRegexEnd)
    ensures Parse("s/", eng) == Err(NoRegexEnd)
    ensures Parse("s", eng) == Err(NoSelector)
    ensures Parse("d", eng) == Err(NoSelector)
    ensures Parse("p/", eng) == Err(NoRegexEnd)
    ensures Parse("P/", eng) == Err(NoRegexEnd)
    ensures Parse("ds//", eng) == Err(ExpectedSeparator('s'))
    ensures Parse("sd///", eng) == Err(ExpectedSeparator('d'))
    ensures Parse("d /(/", eng) == Err(ExpectedSeparator(' '))
  {
  }

  /** `parse_fail`, the rules rejected for an empty segment or a missing part. */
  lemma ParseFailSegments(eng: Engine)
    ensures Parse("d///", eng) == Err(EmptyRegex)
    ensures Parse("d//", eng) == Err(EmptyRegex)
    ensures Parse("p//", eng) == Err(EmptyRegex)
    ensures Parse("d;/./", eng) == Err(EmptySelector)
    ensures Parse("d;", eng) == Err(EmptySelector)
  {
  }

  /** `parse_fail`: `s/./` lacks the end of its replacement, whatever the engine says of `.`. */
  lemma ParseFailReplacement(eng: Engine)
    ensures Parse("s/./", eng).Err?
  {
    var s := "s/./";
    assert s[2..3] == ".";
  }

  /** `parse_fail`: `p;div` has no expression for `p`, and `d/(/` has an expression the engine rejects. */
  lemma ParseFailLate(eng: Engine)
    ensures Parse("p;div", eng).Err?
    ensures !eng.regexParses("(") ==> Parse("d/(/", eng) == Err(BadRegex("("))
  {
    var t := "p;div";
    assert t[2..5] == "div";
    assert !Blank("div") by { assert !IsWhitespace("div"[0]); }
    var u := "d/(/";
    assert u[2..3] == "(";
  }

  /** `parse_succ`, the plain matches, for engines that accept the selectors and expressions used. */
  lemma ParseSuccMatch(eng: Engine)
    requires eng.selectorParses("*") && eng.regexParses(".")
    ensures Parse("/./", eng) == Ok(Sed(Match, None, Some(".")))
    ensures Parse(";*/./", eng) == Ok(Sed(Match, Some("*"), Some(".")))
    ensures Parse(";*", eng) == Ok(Sed(Match, Some("*"), None))
  {
    assert !Blank("*") by { assert !IsWhitespace("*"[0]); }
    assert Display(Sed(Match, None, Some("."))) == "/./";
    ParseDisplay(Sed(Match, None, Some(".")), eng);
    assert Display(Sed(Match, Some("*"), Some("."))) == ";*/./";
    ParseDisplay(Sed(Match, Some("*"), Some(".")), eng);
    assert Display(Sed(Match, Some("*"), None)) == ";*";
    ParseDisplay(Sed(Match, Some("*"), None), eng);
  }

  /** A substitution without a selector is read back from its rendering. */
  lemma ParseReplaceNoSelector(re: string, rep: string, eng: Engine)
    requires Clean(re) && re != [] && eng.regexParses(re) && Clean(rep)
    ensures Parse("s/" + re + "/" + rep + "/", eng) == Ok(Sed(Replace(rep), None, Some(re)))
  {
    var p := Sed(Replace(rep), None, Some(re));
    assert Display(p) == "s/" + re + "/" + rep + "/" by { DisplayParts(p); }
    ParseDisplay(p, eng);
  }

  /** Text with no `/` and no backslash reads to its end. */
  lemma {:induction false} ScanPlain(x: string, k: nat)
    requires k <= |x| && forall m :: k <= m < |x| ==> x[m] != '/' && x[m] != '\\'
    ensures Scan(x, k) == Ok(|x|)
    decreases |x| - k
  {
    if k < |x| {
      ScanPlain(x, k + 1);
    }
  }

  /** `parse_succ`, the substitution of `.` by nothing. */
  lemma ParseSuccReplaceEmpty(eng: Engine)
    requires eng.regexParses(".")
    ensures Parse("s/.//", eng) == Ok(Sed(Replace(""), None, Some(".")))
  {
    ParseReplaceNoSelector(".", "", eng);
    assert "s/" + "." + "/" + "" + "/" == "s/.//";
  }

  /** `parse_succ`, the substitution of `.`. */
  lemma ParseSuccReplaceDot(eng: Engine)
    requires eng.regexParses(".")
    ensures Parse("s/./foo/", eng) == Ok(Sed(Replace("foo"), None, Some(".")))
  {
    ScanPlain("foo", 0);
    ParseReplaceNoSelector(".", "foo", eng);
    assert "s/" + "." + "/" + "foo" + "/" == "s/./foo/";
  }

  /** `parse_succ`, the substitution of `.*`. */
  lemma ParseSuccReplaceStar(eng: Engine)
    requires eng.regexParses(".*")
    ensures Parse("s/.*/foo/", eng) == Ok(Sed(Replace("foo"), None, Some(".*")))
  {
    ScanPlain(".*", 0);
    ScanPlain("foo", 0);
    ParseReplaceNoSelector(".*", "foo", eng);
    assert "s/" + ".*" + "/" + "foo" + "/" == "s/.*/foo/";
  }

  /** `parse_succ`, the substitution of an anchored expression. */
  lemma ParseSuccReplaceAnchored(eng: Engine)
    requires eng.regexParses("^.*$?")
    ensures Parse("s/^.*$?/foo/", eng) == Ok(Sed(Replace("foo"), None, Some("^.*$?")))
  {
    ScanPlain("^.*$?", 0);
    ScanPlain("foo", 0);
    ParseReplaceNoSelector("^.*$?", "foo", eng);
    assert "s/" + "^.*$?" + "/" + "foo" + "/" == "s/^.*$?/foo/";
  }

  /** `parse_succ`, the substitution of an anchored expression by nothing. */
  lemma ParseSuccReplaceAnchoredEmpty(eng: Engine)
    requires eng.regexParses("^.*$?")
    ensures Parse("s/^.*$?//", eng) == Ok(Sed(Replace(""), None, Some("^.*$?")))
  {
    ScanPlain("^.*$?", 0);
    ParseReplaceNoSelector("^.*$?", "", eng);
    assert "s/" + "^.*$?" + "/" + "" + "/" == "s/^.*$?//";
  }

  /** `parse_succ`, a delete by expression. */
  lemma ParseSuccDeleteRegex(eng: Engine)
    requires eng.regexParses(".")
    ensures Parse("d/./", eng) == Ok(Sed(Delete, None, Some(".")))
  {
    assert Display(Sed(Delete, None, Some("."))) == "d/./";
    ParseDisplay(Sed(Delete, None, Some(".")), eng);
  }

  /** `parse_succ`, a delete by selector and expression. */
  lemma ParseSuccDeleteBoth(eng: Engine)
    requires eng.selectorParses("div") && eng.regexParses(".")
    ensures Parse("d;div/./", eng) == Ok(Sed(Delete, Some("div"), Some(".")))
  {
    assert !Blank("div") by { assert !IsWhitespace("div"[0]); }
    assert Display(Sed(Delete, Some("div"), Some("."))) == "d;div/./";
    ParseDisplay(Sed(Delete, Some("div"), Some(".")), eng);
  }

  /** `parse_succ`, a delete by selector. */
  lemma ParseSuccDeleteSelector(eng: Engine)
    requires eng.selectorParses("div")
    ensures Parse("d;div", eng) == Ok(Sed(Delete, Some("div"), None))
  {
    assert !Blank("div") by { assert !IsWhitespace("div"[0]); }
    assert Display(Sed(Delete, Some("div"), None)) == "d;div";
    ParseDisplay(Sed(Delete, Some("div"), None), eng);
  }

  /** `parse_succ`, printing every match of a selector. */
  lemma ParseSuccPrintAll(eng: Engine)
    requires eng.selectorParses("div")
    ensures Parse("P;div", eng) == Ok(Sed(PrintAll, Some("div"), None))
  {
    assert !Blank("div") by { assert !IsWhitespace("div"[0]); }
    assert Display(Sed(PrintAll, Some("div"), None)) == "P;div";
    ParseDisplay(Sed(PrintAll, Some("div"), None), eng);
  }
}
