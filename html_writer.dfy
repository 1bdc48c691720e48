/*
 * The HTML writer the rendering code writes to.  Its header
 * (util/html_writer.hpp) and its escaping and serialisation are not part of
 * this model: a writer is modelled as the append-only log of the calls made
 * on it, in order.
 */
module HtmlWriters {
  import opened Chars
  import opened Options

  /** `Attribute_Style`: the two quoting styles the rendering code asks for. */
  datatype AttributeStyle = AlwaysDouble | DoubleIfNeeded

  /** One call on an `HTML_Writer` or on the `Attribute_Writer` that
    * `open_tag_with_attributes` returns. */
  datatype HtmlEvent =
    | OpenTag(name: seq<byte>)
    | OpenTagWithAttributes(name: seq<byte>)
    /** `write_attribute(name, value, style)`, or `write_empty_attribute`
      * when `value` is `None`. */
    | WriteAttribute(name: seq<byte>, value: Option<seq<byte>>, style: AttributeStyle)
    /** `Attribute_Writer::end`, which finishes the opening tag. */
    | EndAttributes
    | CloseTag(name: seq<byte>)
    | InnerText(text: seq<byte>)
    | InnerHtml(html: seq<byte>)

  /** The tag events in `events` that open or close a tag named `name`. */
  function TagEvents(events: seq<HtmlEvent>, name: seq<byte>): (r: seq<HtmlEvent>)
    ensures |r| <= |events|
  {
    if events == [] then []
    else
      var e := events[|events| - 1];
      TagEvents(events[..|events| - 1], name)
      + (if e == OpenTag(name) || e == CloseTag(name) then [e] else [])
  }

  /** `TagEvents` keeps only the opening and closing of `name`. */
  lemma {:induction false} TagEventsAreTags(events: seq<HtmlEvent>, name: seq<byte>)
    ensures forall e | e in TagEvents(events, name) :: e == OpenTag(name) || e == CloseTag(name)
    decreases |events|
  {
    if events != [] {
      TagEventsAreTags(events[..|events| - 1], name);
    }
  }

  /** `TagEvents` of a concatenation is the concatenation of `TagEvents`. */
  lemma {:induction false} TagEventsConcat(a: seq<HtmlEvent>, b: seq<HtmlEvent>, name: seq<byte>)
    ensures TagEvents(a + b, name) == TagEvents(a, name) + TagEvents(b, name)
    decreases |b|
  {
    if b == [] {
      assert a + b == a;
    } else {
      TagEventsConcat(a, b[..|b| - 1], name);
      assert (a + b)[..|a + b| - 1] == a + b[..|b| - 1];
      assert (a + b)[|a + b| - 1] == b[|b| - 1];
    }
  }

  /** `HTML_Writer`: its `events` are what was written to its output. */
  class HtmlWriter {
    var events: seq<HtmlEvent>

    constructor ()
      ensures events == []
    {
      events := [];
    }

    method OpenTag(name: seq<byte>)
      modifies this
      ensures events == old(events) + [HtmlEvent.OpenTag(name)]
    {
      events := events + [HtmlEvent.OpenTag(name)];
    }

    method OpenTagWithAttributes(name: seq<byte>)
      modifies this
      ensures events == old(events) + [HtmlEvent.OpenTagWithAttributes(name)]
    {
      events := events + [HtmlEvent.OpenTagWithAttributes(name)];
    }

    method WriteAttribute(name: seq<byte>, value: seq<byte>, style: AttributeStyle)
      modifies this
      ensures events == old(events) + [HtmlEvent.WriteAttribute(name, Some(value), style)]
    {
      events := events + [HtmlEvent.WriteAttribute(name, Some(value), style)];
    }

    method WriteEmptyAttribute(name: seq<byte>, style: AttributeStyle)
      modifies this
      ensures events == old(events) + [HtmlEvent.WriteAttribute(name, None, style)]
    {
      events := events + [HtmlEvent.WriteAttribute(name, None, style)];
    }

    method EndAttributes()
      modifies this
      ensures events == old(events) + [HtmlEvent.EndAttributes]
    {
      events := events + [HtmlEvent.EndAttributes];
    }

    method CloseTag(name: seq<byte>)
      modifies this
      ensures events == old(events) + [HtmlEvent.CloseTag(name)]
    {
      events := events + [HtmlEvent.CloseTag(name)];
    }

    method WriteInnerText(text: seq<byte>)
      modifies this
      ensures events == old(events) + [HtmlEvent.InnerText(text)]
    {
      events := events + [HtmlEvent.InnerText(text)];
    }

    method WriteInnerHtml(html: seq<byte>)
      modifies this
      ensures events == old(events) + [HtmlEvent.InnerHtml(html)]
    {
      events := events + [HtmlEvent.InnerHtml(html)];
    }
  }
}
