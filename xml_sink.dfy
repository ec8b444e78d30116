/**
 * The streaming XML writer used for the package and navigation documents
 * (generate/src/epub/xml.rs).
 *
 * `XmlSink` owns the output and a queue of close tags. An `Element` is a
 * mutable borrow of the sink that writes its close tag into the queue when
 * it is dropped; the queue is written out, and cleared, at the start of the
 * next write. Because each `Element` borrows the sink (or its parent), only
 * the innermost live element can be used; the model keeps the names of the
 * live elements, innermost last, in `open`, and the element methods act on
 * the innermost one.
 *
 * Each write is also recorded as a ghost token, so that the output can be
 * related to an independent reading: the written text plus the queue is the
 * rendering of the tokens, and every close tag matches the element most
 * recently opened and not yet closed.
 */
module XmlSink {
  import opened Wrappers
  import HtmlWriter

  const XML_HEADER: string := "<?xml version=\"1.0\"?>\n\n"
  const XHTML_HEADER: string := "<?xml version=\"1.0\" encoding=\"UTF-8\"?>\n<!DOCTYPE html>\n\n"

  /** One piece of the document: a start tag, a close tag, or text written as given. */
  datatype Tok = Start(name: string, attrs: seq<(string, string)>, selfClosed: bool) | End(name: string) | Chars(text: string)

  /** ` k="v"` for each attribute, the value escaped for an attribute. */
  function AttrText(attrs: seq<(string, string)>): string
  {
    if attrs == [] then [] else AttrText(attrs[..|attrs| - 1]) + AttrPair(attrs[|attrs| - 1])
  }

  function AttrPair(a: (string, string)): string
  {
    " " + a.0 + "=\"" + HtmlWriter.Escape(HtmlWriter.Attr, a.1) + "\""
  }

  /** The text of a start tag. */
  function StartTag(name: string, attrs: seq<(string, string)>, selfClosed: bool): string
  {
    "<" + name + AttrText(attrs) + TagEnd(selfClosed)
  }

  function TagEnd(selfClosed: bool): string
  {
    if selfClosed then " />" else ">"
  }

  function TokText(t: Tok): string
  {
    match t
    case Start(n, a, sc) => StartTag(n, a, sc)
    case End(n) => HtmlWriter.TagClose(n)
    case Chars(s) => s
  }

  /** The document the tokens spell out. */
  function Render(ts: seq<Tok>): string
  {
    if ts == [] then [] else Render(ts[..|ts| - 1]) + TokText(ts[|ts| - 1])
  }

  lemma RenderSnoc(ts: seq<Tok>, t: Tok)
    ensures Render(ts + [t]) == Render(ts) + TokText(t)
  {
    assert (ts + [t])[..|ts|] == ts;
  }

  /**
   * Reading the tokens with a stack of open elements: a start tag that is
   * not self-closed pushes its name, and a close tag must name the top of
   * the stack, which it pops. `None` when a close tag does not match.
   */
  function Stack(ts: seq<Tok>): Option<seq<string>>
  {
    if ts == [] then Some([])
    else
      var n := |ts| - 1;
      match Stack(ts[..n])
      case None => None
      case Some(st) =>
        match ts[n]
        case Start(name, _, sc) => Some(if sc then st else st + [name])
        case End(name) => if st != [] && st[|st| - 1] == name then Some(st[..|st| - 1]) else None
        case Chars(_) => Some(st)
  }

  lemma StackSnoc(ts: seq<Tok>, t: Tok)
    ensures Stack(ts + [t]) == match Stack(ts)
      case None => None
      case Some(st) =>
        match t
        case Start(name, _, sc) => Some(if sc then st else st + [name])
        case End(name) => if st != [] && st[|st| - 1] == name then Some(st[..|st| - 1]) else None
        case Chars(_) => Some(st)
  {
    assert (ts + [t])[..|ts|] == ts;
  }

  /** The close tags, in the order they were queued. */
  function Closes(names: seq<string>): string
  {
    if names == [] then [] else Closes(names[..|names| - 1]) + HtmlWriter.TagClose(names[|names| - 1])
  }

  lemma ClosesSnoc(names: seq<string>, n: string)
    ensures Closes(names + [n]) == Closes(names) + HtmlWriter.TagClose(n)
  {
    assert (names + [n])[..|names|] == names;
  }

  /**
   * The sink's invariant on plain values: the written text and the queue
   * together render the tokens after the header, the tokens leave exactly
   * the live elements open, and the queue holds only close tags.
   */
  ghost predicate Inv(header: string, out: string, queue: string, log: seq<Tok>, open: seq<string>, pending: seq<string>)
  {
    && out + queue == header + Render(log)
    && Stack(log) == Some(open)
    && queue == Closes(pending)
  }

  /** Writing the queue out keeps the invariant and empties the queue. */
  lemma FlushStep(header: string, out: string, queue: string, log: seq<Tok>, open: seq<string>, pending: seq<string>)
    requires Inv(header, out, queue, log, open, pending)
    ensures Inv(header, out + queue, [], log, open, [])
  {
  }

  /** Writing a start tag or text after a flush. */
  lemma WriteStep(header: string, out: string, log: seq<Tok>, open: seq<string>, t: Tok)
    requires Inv(header, out, [], log, open, []) && !t.End?
    ensures Inv(header, out + TokText(t), [], log + [t], if t.Start? && !t.selfClosed then open + [t.name] else open, [])
  {
    var log' := log + [t];
    assert Render(log') == Render(log) + TokText(t) by { RenderSnoc(log, t); }
    assert Stack(log') == Some(if t.Start? && !t.selfClosed then open + [t.name] else open) by { StackSnoc(log, t); }
    assert out + TokText(t) + [] == header + Render(log') by {
      assert out + [] == out;
      assert out + TokText(t) + [] == out + TokText(t);
      Assoc(header, Render(log), TokText(t));
    }
  }

  /** Dropping the innermost element queues its close tag. */
  lemma DropStep(header: string, out: string, queue: string, log: seq<Tok>, open: seq<string>, pending: seq<string>)
    requires Inv(header, out, queue, log, open, pending) && open != []
    ensures var n := open[|open| - 1];
      Inv(header, out, queue + HtmlWriter.TagClose(n), log + [End(n)], open[..|open| - 1], pending + [n])
  {
    var n := open[|open| - 1];
    DropRender(header, out, queue, log, n);
    DropStack(log, open);
    ClosesSnoc(pending, n);
  }

  lemma DropRender(header: string, out: string, queue: string, log: seq<Tok>, n: string)
    requires out + queue == header + Render(log)
    ensures out + (queue + HtmlWriter.TagClose(n)) == header + Render(log + [End(n)])
  {
    var c := HtmlWriter.TagClose(n);
    RenderSnoc(log, End(n));
    assert TokText(End(n)) == c;
    Assoc(out, queue, c);
    Assoc(header, Render(log), c);
  }

  lemma Assoc(a: string, b: string, c: string)
    ensures a + (b + c) == (a + b) + c
  {
  }

  lemma DropStack(log: seq<Tok>, open: seq<string>)
    requires Stack(log) == Some(open) && open != []
    ensures Stack(log + [End(open[|open| - 1])]) == Some(open[..|open| - 1])
  {
    StackSnoc(log, End(open[|open| - 1]));
  }

  /** The text `write_el_start` produces: the name, each attribute in turn, and the end of the tag. */
  method WriteStartTag(name: string, attrs: seq<(string, string)>, selfClosed: bool) returns (tag: string)
    ensures tag == StartTag(name, attrs, selfClosed)
  {
    tag := "<" + name;
    for i := 0 to |attrs|
      invariant tag == "<" + name + AttrText(attrs[..i])
    {
      assert attrs[..i + 1][..i] == attrs[..i];
      Assoc("<" + name, AttrText(attrs[..i]), AttrPair(attrs[i]));
      tag := tag + AttrPair(attrs[i]);
    }
    assert attrs[..|attrs|] == attrs;
    tag := tag + TagEnd(selfClosed);
  }

  class XmlSink {
    /** What has reached the underlying writer. */
    var out: string
    /** Close tags of dropped elements, not yet written. */
    var queue: string
    /** The names of the live elements, innermost last. */
    var open: seq<string>
    ghost var header: string
    ghost var log: seq<Tok>
    ghost var pending: seq<string>

    /** The written text followed by the queued close tags. */
    function Doc(): string
      reads this
    {
      out + queue
    }

    ghost predicate Valid()
      reads this
    {
      Inv(header, out, queue, log, open, pending)
    }

    /** `XmlSink::new`: the XML declaration comes first. */
    constructor New()
      ensures Valid()
      ensures out == XML_HEADER && queue == [] && open == [] && log == []
    {
      out := XML_HEADER;
      queue := [];
      open := [];
      header := XML_HEADER;
      log := [];
      pending := [];
    }

    /** `XmlSink::new_xhtml`: the XHTML declaration and doctype come first. */
    constructor NewXhtml()
      ensures Valid()
      ensures out == XHTML_HEADER && queue == [] && open == [] && log == []
    {
      out := XHTML_HEADER;
      queue := [];
      open := [];
      header := XHTML_HEADER;
      log := [];
      pending := [];
    }

    /** `w`: the queued close tags are written out and the queue cleared. */
    method Flush()
      modifies this
      ensures out == old(out) + old(queue) && queue == [] && pending == []
      ensures open == old(open) && log == old(log) && header == old(header)
      ensures Doc() == old(Doc())
      ensures old(Valid()) ==> Valid()
    {
      if Valid() {
        FlushStep(header, out, queue, log, open, pending);
      }
      if queue != [] {
        out := out + queue;
        queue := [];
      }
      pending := [];
    }

    /** `write_el_start`: flush, then the tag name, each attribute in turn, and the end of the tag. */
    method WriteElStart(name: string, attrs: seq<(string, string)>, selfClosed: bool)
      requires Valid()
      modifies this
      ensures Valid()
      ensures out == old(out) + old(queue) + StartTag(name, attrs, selfClosed) && queue == []
      ensures log == old(log) + [Start(name, attrs, selfClosed)]
      ensures open == (if selfClosed then old(open) else old(open) + [name])
      ensures Doc() == old(Doc()) + StartTag(name, attrs, selfClosed)
    {
      var tag := WriteStartTag(name, attrs, selfClosed);
      Flush();
      var t := Start(name, attrs, selfClosed);
      assert TokText(t) == tag;
      WriteStep(header, out, log, open, t);
      out, log, open := out + tag, log + [t], if selfClosed then open else open + [name];
      assert Doc() == old(Doc()) + tag by {
        assert out + [] == out;
      }
    }

    /** `XmlSink::mkel`: a top-level element; no other element is alive while the sink is borrowed. */
    method Mkel(name: string, attrs: seq<(string, string)>)
      requires Valid() && open == []
      modifies this
      ensures Valid()
      ensures out == old(out) + old(queue) + StartTag(name, attrs, false) && queue == []
      ensures open == [name] && log == old(log) + [Start(name, attrs, false)]
    {
      WriteElStart(name, attrs, false);
    }

    /** `Element::mkel`: a child of the innermost live element. */
    method ElMkel(name: string, attrs: seq<(string, string)>)
      requires Valid() && open != []
      modifies this
      ensures Valid()
      ensures out == old(out) + old(queue) + StartTag(name, attrs, false) && queue == []
      ensures open == old(open) + [name] && log == old(log) + [Start(name, attrs, false)]
    {
      WriteElStart(name, attrs, false);
    }

    /** `Element::mkel_selfclosed`: a child written whole; nothing is queued for it. */
    method ElMkelSelfClosed(name: string, attrs: seq<(string, string)>)
      requires Valid() && open != []
      modifies this
      ensures Valid()
      ensures out == old(out) + old(queue) + StartTag(name, attrs, true) && queue == []
      ensures open == old(open) && log == old(log) + [Start(name, attrs, true)]
    {
      WriteElStart(name, attrs, true);
    }

    /** Text written into the innermost element, after the queued close tags. */
    method WriteText(s: string)
      requires Valid() && open != []
      modifies this
      ensures Valid()
      ensures out == old(out) + old(queue) + s && queue == []
      ensures open == old(open) && log == old(log) + [Chars(s)]
    {
      Flush();
      WriteStep(header, out, log, open, Chars(s));
      out := out + s;
      log := log + [Chars(s)];
    }

    /** `Element::write_lf`. */
    method WriteLf()
      requires Valid() && open != []
      modifies this
      ensures Valid()
      ensures out == old(out) + old(queue) + "\n" && queue == []
      ensures open == old(open) && log == old(log) + [Chars("\n")]
    {
      WriteText("\n");
    }

    /** `Write for Element`: the bytes go straight to the writer once the queue is flushed. */
    method Write(buf: string)
      requires Valid() && open != []
      modifies this
      ensures Valid()
      ensures out == old(out) + old(queue) + buf && queue == []
      ensures open == old(open) && log == old(log) + [Chars(buf)]
    {
      WriteText(buf);
    }

    /** `Drop for Element`: the close tag of the innermost element is queued, not written. */
    method Drop()
      requires Valid() && open != []
      modifies this
      ensures Valid()
      ensures out == old(out)
      ensures queue == old(queue) + HtmlWriter.TagClose(old(open)[|old(open)| - 1])
      ensures open == old(open)[..|old(open)| - 1]
      ensures log == old(log) + [End(old(open)[|old(open)| - 1])]
    {
      var name := open[|open| - 1];
      var queue', open' := queue + HtmlWriter.TagClose(name), open[..|open| - 1];
      ghost var log', pending' := log + [End(name)], pending + [name];
      assert Inv(header, out, queue', log', open', pending') by {
        DropStep(header, out, queue, log, open, pending);
      }
      queue, open := queue', open';
      log, pending := log', pending';
    }

    /** `Element::write_field`: the value, and then the element is dropped. */
    method WriteField(val: string)
      requires Valid() && open != []
      modifies this
      ensures Valid()
      ensures out == old(out) + old(queue) + val
      ensures queue == HtmlWriter.TagClose(old(open)[|old(open)| - 1])
      ensures open == old(open)[..|old(open)| - 1]
      ensures log == old(log) + [Chars(val), End(old(open)[|old(open)| - 1])]
    {
      WriteText(val);
      Drop();
    }

    /** `finish`: the sink is no longer borrowed, so every element is closed; the queue is written out. */
    method Finish()
      requires Valid() && open == []
      modifies this
      ensures Valid()
      ensures out == old(Doc()) && queue == []
      ensures out == header + Render(log) && Stack(log) == Some([])
    {
      Flush();
    }
  }

  /** The start tags of the writer's own test. */
  lemma TestTags()
    ensures StartTag("aaa", [("attr", "val")], false) == "<aaa attr=\"val\">"
    ensures StartTag("bbb", [], false) == "<bbb>"
  {
    var a: seq<(string, string)> := [("attr", "val")];
    assert a[..0] == [];
    assert HtmlWriter.Escape(HtmlWriter.Attr, "val") == "val";
    assert AttrText(a) == " attr=\"val\"";
  }

  lemma TestCloseTags()
    ensures HtmlWriter.TagClose("bbb") == "</bbb>" && HtmlWriter.TagClose("aaa") == "</aaa>"
  {
  }

  /** The writer's own test: one element with an attribute holding a field element. */
  method ItWorks() returns (s: string)
    ensures s == XML_HEADER + "<aaa attr=\"val\">" + "<bbb>" + "ccc" + "</bbb>" + "</aaa>"
  {
    TestTags();
    var xml := new XmlSink.New();
    xml.Mkel("aaa", [("attr", "val")]);
    assert xml.out == XML_HEADER + "<aaa attr=\"val\">";
    xml.ElMkel("bbb", []);
    assert xml.out == XML_HEADER + "<aaa attr=\"val\">" + "<bbb>";
    xml.WriteField("ccc");
    assert xml.out == XML_HEADER + "<aaa attr=\"val\">" + "<bbb>" + "ccc";
    xml.Drop();
    assert xml.queue == HtmlWriter.TagClose("bbb") + HtmlWriter.TagClose("aaa");
    xml.Finish();
    s := xml.out;
    TestCloseTags();
    Assoc(XML_HEADER + "<aaa attr=\"val\">" + "<bbb>" + "ccc", "</bbb>", "</aaa>");
  }
}
