/*
 * Directive behaviours and name resolution, include/mmml/directives.hpp and
 * src/main/cpp/directives.cpp: the builtin directive set with its
 * `-`-prefix stripping, the tag names the passthrough behaviours derive,
 * the `Context` that resolves names through a stack of resolvers and keeps
 * the document's variables, and the HTML of `\error`.
 *
 * What a behaviour's `generate_plaintext` and `generate_html` append is,
 * apart from the builtin cases stated here, foreign to this model; a
 * context carries it as the two functions `generatePlaintext` and
 * `generateHtml`.
 */
module Directives {
  import opened Chars
  import opened Options
  import opened DirectiveKinds
  import opened Ast
  import opened HtmlWriters

  /** `Variable_Operation`. */
  datatype VariableOperation = SetOperation

  /** Which behaviour a `Directive_Behavior` object is. */
  datatype BehaviorKind =
    | DoNothing
    | ErrorTag
    | HtmlLiteral
    /** `Directive_Name_Passthrough_Behavior` with its name prefix. */
    | NamePassthrough(prefix: seq<byte>)
    /** `Fixed_Name_Passthrough_Behavior` with its tag name. */
    | FixedNamePassthrough(name: seq<byte>)
    | GetVariable
    | ModifyVariable(op: VariableOperation)
    /** A behaviour defined outside this model. */
    | Custom(id: nat)

  /** `Directive_Behavior`: its category and display are fixed when it is
    * constructed. */
  datatype Behavior = Behavior(category: Category, display: Display, kind: BehaviorKind)

  // ---------------------------------------------------------------------
  // The members of `Builtin_Directive_Set::Impl`.

  /** `do_nothing`: the code default-constructs a `Do_Nothing_Behavior`,
    * which has no default constructor; it is modelled as the `meta`
    * behaviour with no display that the header describes for `\comment`. */
  const DO_NOTHING := Behavior(Meta, NoDisplay, DoNothing)
  const ERROR := Behavior(PureHtml, InLine, ErrorTag)
  const HTML := Behavior(PureHtml, Block, HtmlLiteral)
  const DIRECT_FORMATTING := Behavior(Formatting, InLine, NamePassthrough(""))
  const TT_FORMATTING := Behavior(Formatting, InLine, FixedNamePassthrough("tt-"))
  const DIRECT_HTML := Behavior(PureHtml, InLine, NamePassthrough(""))
  const HTML_TAGS := Behavior(PureHtml, Block, NamePassthrough(HTML_TAG_PREFIX))

  /** The behaviours of `Builtin_Directive_Set::Impl`. */
  const BUILTIN_BEHAVIORS: set<Behavior> :=
    {DO_NOTHING, ERROR, HTML, DIRECT_FORMATTING, TT_FORMATTING, DIRECT_HTML, HTML_TAGS}

  const BUILTIN_DIRECTIVE_PREFIX: byte := '-'
  const HTML_TAG_PREFIX: seq<byte> := "html-"

  /** The names that resolve to `direct_formatting` and `direct_html`. */
  const FORMATTING_NAMES: set<seq<byte>> :=
    {"b", "em", "i", "ins", "kbd", "mark", "s", "small", "strong", "sub", "sup", "u"}
  const HTML_ELEMENT_NAMES: set<seq<byte>> := {"dd", "dl", "dt", "ol", "ul"}

  /** `Builtin_Directive_Set::operator()`: a leading `-` is dropped, over
    * and over; the empty name resolves to nothing; otherwise a switch on
    * the first byte compares with the builtin names. A name of dashes
    * only resolves to nothing, and whatever is found is one of the
    * builtin behaviours. */
  function BuiltinDirectiveSet(name: seq<byte>): (r: Option<Behavior>)
    ensures StripDashes(name) == [] ==> r.None?
    ensures r.Some? ==> r.value in BUILTIN_BEHAVIORS
  {
    if |name| > 0 && name[0] == BUILTIN_DIRECTIVE_PREFIX then BuiltinDirectiveSet(name[1..])
    else if name == [] then None
    else BuiltinSwitch(name)
  }

  /** The `switch (name[0])` of `Builtin_Directive_Set::operator()`: it
    * finds nothing for a name starting with `-`, finds every formatting
    * name, and only ever finds a builtin behaviour. */
  function BuiltinSwitch(name: seq<byte>): (r: Option<Behavior>)
    requires name != []
    ensures name[0] == '-' ==> r.None?
    ensures name in FORMATTING_NAMES ==> r == Some(DIRECT_FORMATTING)
    ensures r.Some? ==> r.value in BUILTIN_BEHAVIORS
  {
    match name[0]
    case 'b' => if name == "b" then Some(DIRECT_FORMATTING) else None
    case 'c' => if name == "comment" then Some(DO_NOTHING) else None
    case 'd' => if name == "dd" || name == "dl" || name == "dt" then Some(DIRECT_HTML) else None
    case 'e' =>
      if name == "em" then Some(DIRECT_FORMATTING)
      else if name == "error" then Some(ERROR)
      else None
    case 'h' =>
      if name == "html" then Some(HTML)
      else if StartsWith(name, HTML_TAG_PREFIX) then Some(HTML_TAGS)
      else None
    case 'i' => if name == "i" || name == "ins" then Some(DIRECT_FORMATTING) else None
    case 'k' => if name == "kbd" then Some(DIRECT_FORMATTING) else None
    case 'm' => if name == "mark" then Some(DIRECT_FORMATTING) else None
    case 'o' => if name == "ol" then Some(DIRECT_HTML) else None
    case 's' =>
      if name == "s" || name == "small" || name == "strong" || name == "sub" || name == "sup"
      then Some(DIRECT_FORMATTING)
      else None
    case 't' => if name == "tt" then Some(TT_FORMATTING) else None
    case 'u' =>
      if name == "u" then Some(DIRECT_FORMATTING)
      else if name == "ul" then Some(DIRECT_HTML)
      else None
    case _ => None
  }

  predicate StartsWith(s: seq<byte>, prefix: seq<byte>)
  {
    |prefix| <= |s| && s[..|prefix|] == prefix
  }

  /** `name` without all its leading `-`. */
  function StripDashes(name: seq<byte>): (r: seq<byte>)
    ensures |r| <= |name|
  {
    if |name| > 0 && name[0] == '-' then StripDashes(name[1..]) else name
  }

  /** What `StripDashes` takes away is a run of dashes at the front, and what
    * it leaves neither is empty nor starts with a dash, or is empty. */
  lemma {:induction false} StripDashesFacts(name: seq<byte>)
    ensures var r := StripDashes(name);
      && r == name[|name| - |r|..]
      && (r == [] || r[0] != '-')
      && (forall k | 0 <= k < |name| - |r| :: name[k] == '-')
  {
    if |name| > 0 && name[0] == '-' {
      StripDashesFacts(name[1..]);
      assert StripDashes(name) == StripDashes(name[1..]);
    }
  }

  /** The builtin table as a reference: which behaviour each name without
    * leading dashes stands for. */
  function BuiltinTable(name: seq<byte>): Option<Behavior>
  {
    if name in FORMATTING_NAMES then Some(DIRECT_FORMATTING)
    else if name in HTML_ELEMENT_NAMES then Some(DIRECT_HTML)
    else if name == "tt" then Some(TT_FORMATTING)
    else if name == "comment" then Some(DO_NOTHING)
    else if name == "error" then Some(ERROR)
    else if name == "html" then Some(HTML)
    else if StartsWith(name, HTML_TAG_PREFIX) then Some(HTML_TAGS)
    else None
  }

  /** The switch agrees with the table on every name that does not start
    * with `-`. */
  lemma BuiltinSwitchIsTable(name: seq<byte>)
    requires name != [] && name[0] != '-'
    ensures BuiltinSwitch(name) == BuiltinTable(name)
  {
    if StartsWith(name, HTML_TAG_PREFIX) {
      assert name[0] == 'h';
    }
  }

  /** The builtin set resolves a name as the table resolves it without its
    * leading dashes: names of dashes only resolve to nothing. */
  lemma {:induction false} BuiltinDirectiveSetIsTable(name: seq<byte>)
    ensures BuiltinDirectiveSet(name) == BuiltinTable(StripDashes(name))
    ensures StripDashes(name) == [] ==> BuiltinDirectiveSet(name) == None
  {
    if |name| > 0 && name[0] == '-' {
      BuiltinDirectiveSetIsTable(name[1..]);
      assert BuiltinDirectiveSet(name) == BuiltinDirectiveSet(name[1..]);
      assert StripDashes(name) == StripDashes(name[1..]);
    } else if name != [] {
      BuiltinSwitchIsTable(name);
    } else {
      assert !StartsWith([], HTML_TAG_PREFIX);
    }
  }

  /** A builtin is found both with and without a `-` in front. */
  lemma BuiltinPrefixIgnored(name: seq<byte>)
    ensures BuiltinDirectiveSet([BUILTIN_DIRECTIVE_PREFIX] + name) == BuiltinDirectiveSet(name)
  {
    assert ([BUILTIN_DIRECTIVE_PREFIX] + name)[1..] == name;
  }

  /** Which behaviour each group of builtin names resolves to, and so its
    * category and display, with or without leading dashes. */
  lemma BuiltinCategories(name: seq<byte>)
    ensures var r := BuiltinDirectiveSet(name); var n := StripDashes(name);
      && (n in FORMATTING_NAMES ==> r == Some(DIRECT_FORMATTING))
      && (n in HTML_ELEMENT_NAMES ==> r == Some(DIRECT_HTML))
      && (n == "tt" ==> r == Some(TT_FORMATTING))
      && (n == "html" ==> r == Some(HTML))
      && (n == "comment" ==> r == Some(DO_NOTHING))
      && (n == "error" ==> r == Some(ERROR))
      && (n != "html" && StartsWith(n, HTML_TAG_PREFIX) ==> r == Some(HTML_TAGS))
  {
    BuiltinDirectiveSetIsTable(name);
    var n := StripDashes(name);
    if n != "html" && StartsWith(n, HTML_TAG_PREFIX) {
      HtmlPrefixedNotListed(n);
    }
  }

  /** No name starting with `html-` is a formatting or element name. */
  lemma HtmlPrefixedNotListed(n: seq<byte>)
    requires StartsWith(n, HTML_TAG_PREFIX)
    ensures n !in FORMATTING_NAMES && n !in HTML_ELEMENT_NAMES
  {
    assert n[..5] == HTML_TAG_PREFIX;
    assert n[0] == 'h' && |n| >= 5;
  }

  /** Every other name resolves to nothing. */
  lemma BuiltinOthersUnresolved(name: seq<byte>)
    requires var n := StripDashes(name);
      n !in FORMATTING_NAMES && n !in HTML_ELEMENT_NAMES
      && n != "tt" && n != "comment" && n != "error" && n != "html" && !StartsWith(n, HTML_TAG_PREFIX)
    ensures BuiltinDirectiveSet(name) == None
  {
    BuiltinDirectiveSetIsTable(name);
  }

  // ---------------------------------------------------------------------
  // Tag names of the passthrough behaviours.

  /** `Directive_Name_Passthrough_Behavior::get_name` as written: one
    * leading `-` is dropped from the directive's name, then the prefix's
    * length of bytes; `substr` throws when the name is shorter than the
    * prefix, which is `None` here. */
  function PassthroughNameAsWritten(rawName: seq<byte>, prefix: seq<byte>): (r: Option<seq<byte>>)
    ensures r.None? <==> |prefix| > |rawName| - (if |rawName| > 0 && rawName[0] == '-' then 1 else 0)
    ensures r.Some? ==> var dash := if |rawName| > 0 && rawName[0] == '-' then 1 else 0;
      |r.value| == |rawName| - dash - |prefix| && r.value == rawName[dash + |prefix|..]
  {
    var name := if |rawName| > 0 && rawName[0] == BUILTIN_DIRECTIVE_PREFIX then rawName[1..] else rawName;
    if |prefix| > |name| then None else Some(name[|prefix|..])
  }

  /** The tag name the passthrough behaviour evidently intends: the name
    * the builtin lookup matched, that is, without all its leading dashes,
    * less the prefix. */
  function PassthroughName(rawName: seq<byte>, prefix: seq<byte>): (r: Option<seq<byte>>)
    ensures r.None? <==> |prefix| > |StripDashes(rawName)|
    ensures r.Some? ==> StripDashes(rawName) == StripDashes(rawName)[..|prefix|] + r.value
  {
    var name := StripDashes(rawName);
    if |prefix| > |name| then None else Some(name[|prefix|..])
  }

  /** For every name the builtin set resolves to a name passthrough
    * behaviour, the corrected tag name exists and is the matched name:
    * one of the formatting or element names, or what follows `html-`. */
  lemma PassthroughNameIsMatchedName(rawName: seq<byte>)
    requires BuiltinDirectiveSet(rawName).Some? && BuiltinDirectiveSet(rawName).value.kind.NamePassthrough?
    ensures var b := BuiltinDirectiveSet(rawName).value; var r := PassthroughName(rawName, b.kind.prefix);
      && r.Some?
      && (b == DIRECT_FORMATTING ==> r.value in FORMATTING_NAMES)
      && (b == DIRECT_HTML ==> r.value in HTML_ELEMENT_NAMES)
      && (b == HTML_TAGS ==> StripDashes(rawName) == HTML_TAG_PREFIX + r.value)
  {
    BuiltinDirectiveSetIsTable(rawName);
    var n := StripDashes(rawName);
    if StartsWith(n, HTML_TAG_PREFIX) {
      assert n == n[..5] + n[5..];
    }
  }

  /** As written, more than one leading dash is left in the tag name:
    * `\--b` resolves to the formatting behaviour of `b`, yet its tag name
    * is `-b`, which is no HTML tag name. */
  lemma PassthroughNameAsWrittenKeepsDash()
    ensures BuiltinDirectiveSet("--b") == Some(DIRECT_FORMATTING)
    ensures PassthroughNameAsWritten("--b", "") == Some("-b") && !IsHtmlTagName("-b")
    ensures PassthroughName("--b", "") == Some("b")
  {
    assert [BUILTIN_DIRECTIVE_PREFIX] + "-b" == "--b" && [BUILTIN_DIRECTIVE_PREFIX] + "b" == "-b";
    BuiltinPrefixIgnored("-b");
    BuiltinPrefixIgnored("b");
    assert StripDashes("--b") == "b" by {
      assert "--b"[1..] == "-b" && "-b"[1..] == "b";
    }
  }

  /** The same for the `html-` tags: `\--html-div` writes a `-div` tag. */
  lemma PassthroughNameAsWrittenKeepsDashInTag()
    ensures BuiltinDirectiveSet("--html-div") == Some(HTML_TAGS)
    ensures PassthroughNameAsWritten("--html-div", HTML_TAG_PREFIX) == Some("-div") && !IsHtmlTagName("-div")
    ensures PassthroughName("--html-div", HTML_TAG_PREFIX) == Some("div")
  {
    assert [BUILTIN_DIRECTIVE_PREFIX] + "-html-div" == "--html-div" && [BUILTIN_DIRECTIVE_PREFIX] + "html-div" == "-html-div";
    BuiltinPrefixIgnored("-html-div");
    BuiltinPrefixIgnored("html-div");
    assert StartsWith("html-div", HTML_TAG_PREFIX);
    assert StripDashes("--html-div") == "html-div" by {
      assert "--html-div"[1..] == "-html-div" && "-html-div"[1..] == "html-div";
    }
  }

  /** The two agree whenever the name has at most one leading dash. */
  lemma PassthroughNameAgreesWithOneDash(rawName: seq<byte>, prefix: seq<byte>)
    requires |rawName| < 2 || rawName[0] != '-' || rawName[1] != '-'
    ensures PassthroughNameAsWritten(rawName, prefix) == PassthroughName(rawName, prefix)
  {
    if |rawName| > 0 && rawName[0] == '-' {
      assert StripDashes(rawName) == rawName[1..];
    }
  }

  /** `Fixed_Name_Passthrough_Behavior::get_name`: the fixed name,
    * whatever the directive is called. */
  function FixedName(b: Behavior, rawName: seq<byte>): (r: seq<byte>)
    requires b.kind.FixedNamePassthrough?
    ensures r == b.kind.name
  {
    b.kind.name
  }

  // ---------------------------------------------------------------------
  // `\error`.

  const ERROR_TAG: seq<byte> := "error-"

  /** Every user-written node among `cs` lies within `source`. */
  predicate SourcesWithin(cs: seq<Content>, source: seq<byte>)
  {
    forall k | 0 <= k < |cs| :: IsUserWritten(cs[k]) ==> cs[k].pos.End() <= |source|
  }

  /** The inner text events of the source of each of `cs`, in order. */
  function SourceTexts(cs: seq<Content>, source: seq<byte>): (r: seq<HtmlEvent>)
    requires SourcesWithin(cs, source)
    ensures |r| == |cs|
  {
    if cs == [] then []
    else SourceTexts(cs[..|cs| - 1], source) + [InnerText(ContentSource(cs[|cs| - 1], source))]
  }

  /** The `k`-th event of `SourceTexts` is the text of the `k`-th node. */
  lemma {:induction false} SourceTextsAt(cs: seq<Content>, source: seq<byte>, k: nat)
    requires SourcesWithin(cs, source) && k < |cs|
    ensures SourceTexts(cs, source)[k] == InnerText(ContentSource(cs[k], source))
    decreases |cs|
  {
    var n := |cs| - 1;
    if k < n {
      assert SourcesWithin(cs[..n], source) by {
        assert forall j | 0 <= j < n :: cs[..n][j] == cs[j];
      }
      SourceTextsAt(cs[..n], source, k);
    }
  }

  /** `Error_Behavior::generate_html`: the source of each piece of the
    * directive's content, as text, inside one `error-` tag. */
  method ErrorGenerateHtml(out: HtmlWriter, d: Content, source: seq<byte>)
    requires d.DirectiveNode? && SourcesWithin(d.content, source)
    modifies out
    ensures out.events == old(out.events) + ErrorHtml(d, source)
  {
    out.OpenTag(ERROR_TAG);
    for k := 0 to |d.content|
      invariant out.events == old(out.events) + [HtmlEvent.OpenTag(ERROR_TAG)] + SourceTexts(d.content[..k], source)
    {
      SourcesWithinPrefix(d.content, source, k + 1);
      assert d.content[..k + 1][..k] == d.content[..k];
      out.WriteInnerText(ContentSource(d.content[k], source));
    }
    assert d.content[..|d.content|] == d.content;
    out.CloseTag(ERROR_TAG);
  }

  /** Every prefix of nodes within the source is within it. */
  lemma SourcesWithinPrefix(cs: seq<Content>, source: seq<byte>, n: nat)
    requires SourcesWithin(cs, source) && n <= |cs|
    ensures SourcesWithin(cs[..n], source)
  {
    assert forall j | 0 <= j < n :: cs[..n][j] == cs[j];
  }

  /** What `Error_Behavior::generate_html` writes: an `error-` element
    * around one event per piece of content. */
  function ErrorHtml(d: Content, source: seq<byte>): (e: seq<HtmlEvent>)
    requires d.DirectiveNode? && SourcesWithin(d.content, source)
    ensures |e| == |d.content| + 2
    ensures e[0] == HtmlEvent.OpenTag(ERROR_TAG) && e[|e| - 1] == HtmlEvent.CloseTag(ERROR_TAG)
  {
    [HtmlEvent.OpenTag(ERROR_TAG)] + SourceTexts(d.content, source) + [HtmlEvent.CloseTag(ERROR_TAG)]
  }

  /** The `\error` HTML is one `error-` element holding one text per piece
    * of content and nothing else, whose texts put together are the
    * directive's content source. */
  lemma ErrorHtmlShape(d: Content, source: seq<byte>)
    requires d.DirectiveNode? && SourcesWithin(d.content, source)
    ensures var e := ErrorHtml(d, source);
      && |e| == |d.content| + 2
      && e[0] == HtmlEvent.OpenTag(ERROR_TAG) && e[|e| - 1] == HtmlEvent.CloseTag(ERROR_TAG)
      && (forall k | 1 <= k < |e| - 1 :: e[k].InnerText? && e[k].text == ContentSource(d.content[k - 1], source))
      && TagEvents(e, ERROR_TAG) == [HtmlEvent.OpenTag(ERROR_TAG), HtmlEvent.CloseTag(ERROR_TAG)]
  {
    var e := ErrorHtml(d, source);
    var inner := SourceTexts(d.content, source);
    forall k | 1 <= k < |e| - 1
      ensures e[k].InnerText? && e[k].text == ContentSource(d.content[k - 1], source)
    {
      SourceTextsAt(d.content, source, k - 1);
    }
    NoTagsInSourceTexts(d.content, source, ERROR_TAG);
    TagEventsConcat([HtmlEvent.OpenTag(ERROR_TAG)], inner, ERROR_TAG);
    TagEventsConcat([HtmlEvent.OpenTag(ERROR_TAG)] + inner, [HtmlEvent.CloseTag(ERROR_TAG)], ERROR_TAG);
    assert TagEvents([HtmlEvent.OpenTag(ERROR_TAG)], ERROR_TAG) == [HtmlEvent.OpenTag(ERROR_TAG)] by {
      assert [HtmlEvent.OpenTag(ERROR_TAG)][..0] == [];
    }
    assert TagEvents([HtmlEvent.CloseTag(ERROR_TAG)], ERROR_TAG) == [HtmlEvent.CloseTag(ERROR_TAG)] by {
      assert [HtmlEvent.CloseTag(ERROR_TAG)][..0] == [];
    }
  }

  /** The texts of the sources open and close no tags. */
  lemma {:induction false} NoTagsInSourceTexts(cs: seq<Content>, source: seq<byte>, name: seq<byte>)
    requires SourcesWithin(cs, source)
    ensures TagEvents(SourceTexts(cs, source), name) == []
    decreases |cs|
  {
    if cs != [] {
      SourcesWithinPrefix(cs, source, |cs| - 1);
      NoTagsInSourceTexts(cs[..|cs| - 1], source, name);
      var t := SourceTexts(cs, source);
      assert t[..|t| - 1] == SourceTexts(cs[..|cs| - 1], source);
    }
  }

  // ---------------------------------------------------------------------
  // The context.

  /** A `Name_Resolver`: what it resolves a name to, if anything. */
  type Resolver = seq<byte> -> Option<Behavior>

  /** `Context::find_directive` as a definition: the answer of the most
    * recently added resolver that has one; nothing exactly when no
    * resolver answers. */
  function FirstHit(resolvers: seq<Resolver>, name: seq<byte>): (r: Option<Behavior>)
    ensures r.None? <==> forall k | 0 <= k < |resolvers| :: resolvers[k](name).None?
  {
    if resolvers == [] then None
    else if resolvers[|resolvers| - 1](name).Some? then resolvers[|resolvers| - 1](name)
    else FirstHit(resolvers[..|resolvers| - 1], name)
  }

  /** Nothing is found exactly when no resolver finds anything; what is
    * found is the answer of some resolver after which no resolver answers. */
  lemma {:induction false} FirstHitIsLatest(resolvers: seq<Resolver>, name: seq<byte>)
    ensures FirstHit(resolvers, name).None? <==> forall k | 0 <= k < |resolvers| :: resolvers[k](name).None?
    ensures FirstHit(resolvers, name).Some? ==>
      exists k :: 0 <= k < |resolvers| && resolvers[k](name) == FirstHit(resolvers, name)
        && forall j | k < j < |resolvers| :: resolvers[j](name).None?
    decreases |resolvers|
  {
    if resolvers != [] {
      var n := |resolvers| - 1;
      var init := resolvers[..n];
      FirstHitIsLatest(init, name);
      assert forall k | 0 <= k < n :: init[k] == resolvers[k];
      if resolvers[n](name).Some? {
        assert resolvers[n](name) == FirstHit(resolvers, name);
      } else if FirstHit(init, name).Some? {
        var k :| 0 <= k < n && init[k](name) == FirstHit(init, name)
          && forall j | k < j < n :: init[j](name).None?;
        assert resolvers[k](name) == FirstHit(resolvers, name);
      }
    }
  }

  /** The builtin set alone resolves as the builtin table. */
  lemma FirstHitOfBuiltins(name: seq<byte>)
    ensures FirstHit([BuiltinDirectiveSet], name) == BuiltinTable(StripDashes(name))
  {
    BuiltinDirectiveSetIsTable(name);
    assert [BuiltinDirectiveSet][..0] == [];
  }

  /** `Context`, as far as the rendering code uses it; its header is not
    * part of this model.  Only the variables change. */
  class Context {
    /** `get_source()`. */
    const source: seq<byte>
    /** `m_name_resolvers`, oldest first. */
    const resolvers: seq<Resolver>
    /** `get_error_behavior()`, a pointer that may be null. */
    const errorBehavior: Option<Behavior>
    /** What `generate_plaintext` and `generate_html` of a behaviour append
      * for a directive. */
    const generatePlaintext: (Behavior, Content) -> seq<byte>
    const generateHtml: (Behavior, Content) -> seq<HtmlEvent>
    /** `m_variables`. */
    var variables: map<seq<byte>, seq<byte>>

    constructor (source: seq<byte>, resolvers: seq<Resolver>, errorBehavior: Option<Behavior>,
                 generatePlaintext: (Behavior, Content) -> seq<byte>,
                 generateHtml: (Behavior, Content) -> seq<HtmlEvent>)
      ensures this.source == source && this.resolvers == resolvers && this.errorBehavior == errorBehavior
      ensures this.generatePlaintext == generatePlaintext && this.generateHtml == generateHtml
      ensures variables == map[]
    {
      this.source := source;
      this.resolvers := resolvers;
      this.errorBehavior := errorBehavior;
      this.generatePlaintext := generatePlaintext;
      this.generateHtml := generateHtml;
      variables := map[];
    }

    /** `find_directive(name)`: the resolvers are asked from the most
      * recently added to the oldest, and the first answer is returned. */
    method FindDirective(name: seq<byte>) returns (r: Option<Behavior>)
      ensures r == FirstHit(resolvers, name)
    {
      var i := |resolvers|;
      assert resolvers[..i] == resolvers;
      while i > 0
        invariant 0 <= i <= |resolvers|
        invariant FirstHit(resolvers, name) == FirstHit(resolvers[..i], name)
      {
        var hit := resolvers[i - 1](name);
        assert resolvers[..i][..i - 1] == resolvers[..i - 1];
        if hit.Some? {
          return hit;
        }
        i := i - 1;
      }
      return None;
    }

    /** The behaviour `find_directive(directive)` finds, if any. */
    function Resolve(d: Content): Option<Behavior>
      requires d.DirectiveNode? && d.pos.begin + 1 <= |source|
    {
      FirstHit(resolvers, DirectiveName(d, source))
    }

    /** `find_directive(directive)`: by the directive's name. */
    method FindDirectiveOf(d: Content) returns (r: Option<Behavior>)
      requires d.DirectiveNode? && d.pos.begin + 1 <= |source|
      ensures r == FirstHit(resolvers, DirectiveName(d, source))
    {
      r := FindDirective(DirectiveName(d, source));
    }

    /** What `Modify_Variable_Behavior::process` does for `set` with the
      * plaintext `value` of the directive's content: a new variable is
      * inserted, an existing one overwritten. */
    method SetVariable(name: seq<byte>, value: seq<byte>)
      modifies this
      ensures variables == old(variables)[name := value]
    {
      variables := variables[name := value];
    }

    /** `Get_Variable_Behavior::generate_var_plaintext`: the value, if the
      * variable exists. */
    method GetVariablePlaintext(out: Vector<byte>, name: seq<byte>)
      modifies out
      ensures out.items == old(out.items) + VariableText(variables, name)
    {
      if name in variables {
        out.Append(variables[name]);
      }
    }

    /** `Get_Variable_Behavior::generate_var_html`: the value as HTML, if
      * the variable exists. */
    method GetVariableHtml(out: HtmlWriter, name: seq<byte>)
      modifies out
      ensures out.events == old(out.events) + VariableHtml(variables, name)
    {
      if name in variables {
        out.WriteInnerHtml(variables[name]);
      }
    }
  }

  /** The bytes of a variable, or nothing for an absent one. */
  function VariableText(variables: map<seq<byte>, seq<byte>>, name: seq<byte>): (r: seq<byte>)
    ensures name in variables ==> r == variables[name]
    ensures name !in variables ==> r == []
  {
    if name in variables then variables[name] else []
  }

  function VariableHtml(variables: map<seq<byte>, seq<byte>>, name: seq<byte>): (r: seq<HtmlEvent>)
    ensures name in variables ==> r == [InnerHtml(variables[name])]
    ensures name !in variables ==> r == []
  {
    if name in variables then [InnerHtml(variables[name])] else []
  }

  /** Getting a variable after setting it gives the new value, in plaintext
    * and in HTML; every other variable reads as before. */
  lemma GetAfterSet(variables: map<seq<byte>, seq<byte>>, name: seq<byte>, value: seq<byte>, other: seq<byte>)
    ensures VariableText(variables[name := value], name) == value
    ensures VariableHtml(variables[name := value], name) == [InnerHtml(value)]
    ensures other != name ==> VariableText(variables[name := value], other) == VariableText(variables, other)
  {
  }

  /** `std::pmr::vector`: elements appended at the end. */
  class Vector<T> {
    var items: seq<T>

    constructor ()
      ensures items == []
    {
      items := [];
    }

    method PushBack(x: T)
      modifies this
      ensures items == old(items) + [x]
    {
      items := items + [x];
    }

    method Append(s: seq<T>)
      modifies this
      ensures items == old(items) + s
    {
      items := items + s;
    }
  }
}
