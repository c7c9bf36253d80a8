/** The event filter of `markdown::parse` (src/markdown.rs). The Markdown
    parser and the HTML writer are external: the filter is modelled over the
    event list the parser produces, and the HTML writer is left out.

    The filter is a two-state machine: after a heading start (levels 1 to 6)
    it is armed, and the next text event becomes the opening tag of the
    heading with a numbered anchor; mermaid code fences become `div`s. */
module Markdown {
  import opened Outcomes
  import Str = Text

  /** `doctave_markdown::UrlType`: where an outgoing link points. */
  datatype UrlType = Local(path: string) | Remote(uri: string)

  /** `doctave_markdown::Link`: an outgoing link found by the renderer. */
  datatype MdLink = MdLink(title: string, url: UrlType)

  datatype CodeBlockKind = Indented | Fenced(info: string)

  /** The parser tags the filter distinguishes; all others are `OtherTag`. */
  datatype Tag = CodeBlock(kind: CodeBlockKind) | HeadingTag(level: nat) | OtherTag(name: string)

  /** The parser events the filter distinguishes; all others are `OtherEvent`. */
  datatype Event =
    | Start(tag: Tag)
    | End(tag: Tag)
    | Text(text: string)
    | Html(html: string)
    | OtherEvent(name: string)

  /** A heading captured for the page's table of contents. */
  datatype Heading = Heading(title: string, anchor: string, level: nat)

  /** The closure's captured variables: `heading_level` (0 when disarmed),
      `heading_index` and the headings pushed so far. */
  datatype FilterState = FilterState(headingLevel: nat, headingIndex: nat, headings: seq<Heading>)

  const Initial := FilterState(0, 1, [])

  const MermaidOpen := "<div class=\"mermaid\">"
  const MermaidClose := "</div>"

  /** The language of a fenced block: its info string up to the first space. */
  function Lang(info: string): string {
    Str.Split(info, ' ')[0]
  }

  predicate IsMermaid(info: string) {
    Lang(info) == "mermaid"
  }

  /** The heading text trimmed, lower-cased and with spaces turned into dashes. */
  function Slug(text: string): string {
    Str.ReplaceChar(Str.ToLower(Str.Trim(text)), ' ', '-')
  }

  /** The anchor of the `index`-th captured heading. */
  function Anchor(text: string, index: nat): string {
    Slug(text) + "-" + Str.NatToString(index)
  }

  function OpeningTag(level: nat, anchor: string, text: string): string {
    "<h" + Str.NatToString(level) + " id=\"" + anchor + "\">" + text
  }

  predicate IsHeadingStart(e: Event) {
    e.Start? && e.tag.HeadingTag? && 1 <= e.tag.level <= 6
  }

  predicate IsMermaidFence(e: Event) {
    (e.Start? || e.End?) && e.tag.CodeBlock? && e.tag.kind.Fenced? && IsMermaid(e.tag.kind.info)
  }

  /** One application of the `filter_map` closure. */
  function Step(st: FilterState, e: Event): (r: (FilterState, Option<Event>))
    ensures IsHeadingStart(e) ==> r.1.None? && r.0.headingLevel == e.tag.level
    ensures r.1.None? ==> IsHeadingStart(e)
    ensures IsMermaidFence(e) ==> r.1 == Some(Html(if e.Start? then MermaidOpen else MermaidClose))
    ensures !IsHeadingStart(e) && !IsMermaidFence(e) && !(e.Text? && st.headingLevel != 0) ==> r == (st, Some(e))
    ensures |st.headings| <= |r.0.headings| <= |st.headings| + 1
    ensures r.0.headingIndex == st.headingIndex + |r.0.headings| - |st.headings|
    ensures r.0.headings[..|st.headings|] == st.headings
    ensures r.1.Some? ==> !IsHeadingStart(r.1.value) && !IsMermaidFence(r.1.value)
  {
    match e
    case Start(CodeBlock(Fenced(info))) =>
      if IsMermaid(info) then (st, Some(Html(MermaidOpen))) else (st, Some(e))
    case End(CodeBlock(Fenced(info))) =>
      if IsMermaid(info) then (st, Some(Html(MermaidClose))) else (st, Some(e))
    case Start(HeadingTag(level)) =>
      if 1 <= level <= 6 then (st.(headingLevel := level), None) else (st, Some(e))
    case Text(text) =>
      if st.headingLevel != 0 then
        var anchor := Anchor(text, st.headingIndex);
        var h := Heading(text, anchor, st.headingLevel);
        (FilterState(0, st.headingIndex + 1, st.headings + [h]),
         Some(Html(OpeningTag(st.headingLevel, anchor, text))))
      else (st, Some(e))
    case _ => (st, Some(e))
  }

  /** The filter applied to a whole event list, from the initial state. */
  function Run(events: seq<Event>): (FilterState, seq<Event>) {
    if |events| == 0 then (Initial, [])
    else
      var prev := Run(events[..|events| - 1]);
      var next := Step(prev.0, events[|events| - 1]);
      (next.0, prev.1 + Emit(next.1))
  }

  /** What `filter_map` keeps of one closure result. */
  function Emit(o: Option<Event>): seq<Event> {
    if o.Some? then [o.value] else []
  }

  /** What the state keeps true: the next anchor number is one more than the
      number of headings, every heading's anchor carries its position, and
      every captured level is 1 to 6; an armed state remembers a level 1 to 6. */
  predicate Good(st: FilterState) {
    && st.headingIndex == 1 + |st.headings|
    && (st.headingLevel == 0 || 1 <= st.headingLevel <= 6)
    && forall k :: 0 <= k < |st.headings| ==>
         && st.headings[k].anchor == Anchor(st.headings[k].title, k + 1)
         && 1 <= st.headings[k].level <= 6
  }

  lemma StepKeepsGood(st: FilterState, e: Event)
    requires Good(st)
    ensures Good(Step(st, e).0)
  {
    if e.Text? && st.headingLevel != 0 {
      CaptureKeepsGood(st, e.text);
    } else if IsHeadingStart(e) {
      assert Step(st, e).0 == st.(headingLevel := e.tag.level);
    } else {
      assert Step(st, e).0 == st;
    }
  }

  /** Capturing a heading's text appends a heading whose anchor carries the
      next position and whose level is the armed one. */
  lemma CaptureKeepsGood(st: FilterState, text: string)
    requires Good(st) && st.headingLevel != 0
    ensures Good(FilterState(0, st.headingIndex + 1, st.headings + [Heading(text, Anchor(text, st.headingIndex), st.headingLevel)]))
  {
    var hs := st.headings + [Heading(text, Anchor(text, st.headingIndex), st.headingLevel)];
    forall k | 0 <= k < |hs|
      ensures hs[k].anchor == Anchor(hs[k].title, k + 1) && 1 <= hs[k].level <= 6
    {
      if k < |st.headings| {
        assert hs[k] == st.headings[k];
      } else {
        assert hs[k] == Heading(text, Anchor(text, st.headingIndex), st.headingLevel);
        assert k + 1 == st.headingIndex;
      }
    }
  }

  /** No heading start and no mermaid fence: the events the filter lets through. */
  predicate Clean(events: seq<Event>) {
    forall k :: 0 <= k < |events| ==> !IsHeadingStart(events[k]) && !IsMermaidFence(events[k])
  }

  /** Appending what one step emits keeps the output clean and grows it by at most one. */
  lemma CleanAppend(out: seq<Event>, o: Option<Event>)
    requires Clean(out) && (o.Some? ==> !IsHeadingStart(o.value) && !IsMermaidFence(o.value))
    ensures Clean(out + Emit(o)) && |Emit(o)| <= 1
  {
    if o.Some? {
      assert forall k :: 0 <= k < |out| ==> (out + Emit(o))[k] == out[k];
    }
  }

  /** `markdown::parse` on the event level: the filtered events and the captured headings. */
  method Parse(events: seq<Event>) returns (out: seq<Event>, headings: seq<Heading>)
    ensures (Run(events).0.headings, Run(events).1) == (headings, out)
    ensures |out| <= |events|
    ensures forall k :: 0 <= k < |headings| ==> headings[k].anchor == Anchor(headings[k].title, k + 1)
    ensures forall k :: 0 <= k < |headings| ==> 1 <= headings[k].level <= 6
    ensures Clean(out)
  {
    var st := Initial;
    out := [];
    var i := 0;
    while i < |events|
      invariant 0 <= i <= |events|
      invariant Run(events[..i]) == (st, out)
      invariant Good(st)
      invariant |out| <= i
      invariant Clean(out)
    {
      var next := Step(st, events[i]);
      StepKeepsGood(st, events[i]);
      CleanAppend(out, next.1);
      RunStep(events, i, st, out);
      st := next.0;
      out := out + Emit(next.1);
      i := i + 1;
    }
    assert events[..i] == events;
    headings := st.headings;
  }

  /** A list with no heading start and no mermaid fence passes through unchanged. */
  lemma {:induction false} PassThrough(events: seq<Event>)
    requires Clean(events)
    ensures Run(events) == (Initial, events)
  {
    if |events| > 0 {
      var n := |events| - 1;
      var prefix := events[..n];
      assert Clean(prefix) by {
        assert forall k :: 0 <= k < |prefix| ==> prefix[k] == events[k];
      }
      PassThrough(prefix);
      RunStep(events, n, Initial, prefix);
      assert events[..n + 1] == events;
      assert !IsHeadingStart(events[n]) && !IsMermaidFence(events[n]) && Initial.headingLevel == 0;
      assert Step(Initial, events[n]) == (Initial, Some(events[n]));
      assert Emit(Some(events[n])) == [events[n]];
      assert prefix + [events[n]] == events;
    }
  }

  /** The filter over the first `i + 1` events is one step after the first `i`. */
  lemma RunStep(events: seq<Event>, i: nat, st: FilterState, out: seq<Event>)
    requires i < |events| && Run(events[..i]) == (st, out)
    ensures Run(events[..i + 1]) == (Step(st, events[i]).0, out + Emit(Step(st, events[i]).1))
  {
    var p := events[..i + 1];
    assert p[..i] == events[..i] && p[i] == events[i];
  }

  /** Running the filter over one more event takes one more step. */
  lemma RunSnoc(events: seq<Event>, e: Event)
    ensures Run(events + [e]) == (Step(Run(events).0, e).0, Run(events).1 + Emit(Step(Run(events).0, e).1))
  {
    assert (events + [e])[..|events|] == events;
  }

  /** Only the first text after a heading start is captured: the capture
      disarms the filter, so the next text passes through unchanged. */
  lemma CaptureDisarms(st: FilterState, first: string, second: string)
    requires st.headingLevel != 0
    ensures Step(st, Text(first)).0.headingLevel == 0
    ensures Step(st, Text(first)).0.headings
         == st.headings + [Heading(first, Anchor(first, st.headingIndex), st.headingLevel)]
    ensures Step(Step(st, Text(first)).0, Text(second)) == (Step(st, Text(first)).0, Some(Text(second)))
  {
  }

  /** The anchors of the two headings in the module's own test. */
  lemma TestAnchors()
    ensures Anchor("My heading", 1) == "my-heading-1"
    ensures Anchor("Some other heading", 2) == "some-other-heading-2"
  {
    FirstTestAnchor("My heading");
    SecondTestAnchor("Some other heading");
  }

  /** The anchor of the first heading of the module's test. */
  lemma FirstTestAnchor(text: string)
    requires text == "My heading"
    ensures Anchor(text, 1) == "my-heading-1"
  {
    assert Str.NatToString(1) == "1";
    assert "my-heading" + "-" + "1" == "my-heading-1";
    SlugOfTrimmed(text, "my-heading");
  }

  /** The anchor of the second heading of the module's test. */
  lemma SecondTestAnchor(text: string)
    requires text == "Some other heading"
    ensures Anchor(text, 2) == "some-other-heading-2"
  {
    assert Str.NatToString(2) == "2";
    assert "some-other-heading" + "-" + "2" == "some-other-heading-2";
    SlugOfTrimmed(text, "some-other-heading");
  }

  lemma SlugOfTrimmed(text: string, slug: string)
    requires |text| > 0 && !Str.IsWhitespace(text[0]) && !Str.IsWhitespace(text[|text| - 1])
    requires |slug| == |text|
    requires forall i :: 0 <= i < |text| ==>
      slug[i] == (if Str.LowerChar(text[i]) == ' ' then '-' else Str.LowerChar(text[i]))
    ensures Slug(text) == slug
  {
    Str.TrimTrimmed(text);
  }
}
