/** The renderer (`wrap_text_and_render_markdown_lines` in bot.py): tokens
    drive a small state (the plain text of the current line, its markup and
    four style flags); style delimiters toggle a style, other tokens are
    appended, and the line is flushed as one markup fragment on a newline
    token or when the next token would not fit. */
module Wrapper {
  import opened PyStr
  import opened Tokenizer
  import opened References

  // ================================================================ styles

  datatype Style = Bold | Italic | Underline | Strikethrough

  /** The four flags `_is_bold`, `_is_italic`, `_is_underline`,
      `_is_strikethrough`. */
  datatype Styles = Styles(bold: bool, italic: bool, underline: bool, strikethrough: bool)

  const NoStyles: Styles := Styles(false, false, false, false)

  function IsOpen(s: Styles, st: Style): bool {
    match st
    case Bold => s.bold
    case Italic => s.italic
    case Underline => s.underline
    case Strikethrough => s.strikethrough
  }

  function SetOpen(s: Styles, st: Style, b: bool): (r: Styles)
    ensures IsOpen(r, st) == b
    ensures forall o: Style | o != st :: IsOpen(r, o) == IsOpen(s, o)
  {
    match st
    case Bold => s.(bold := b)
    case Italic => s.(italic := b)
    case Underline => s.(underline := b)
    case Strikethrough => s.(strikethrough := b)
  }

  function OpenTag(st: Style): string {
    match st
    case Bold => "<tspan font-weight=\"bold\">"
    case Italic => "<tspan font-style=\"italic\">"
    case Underline => "<tspan font-decoration=\"underline\">"
    case Strikethrough => "<tspan font-decoration=\"line-through\">"
  }

  const CloseTag: string := "</tspan>"

  /** The style a token toggles: `**` bold, `*` and `_` italic, `__`
      underline, `~~` strikethrough. */
  function StyleOf(word: string): (r: Option<Style>)
    ensures r.Some? ==> word in MdTokens && word != " " && word != "\n"
    ensures word in MdTokens && word != " " && word != "\n" ==> r.Some?
  {
    if word == "**" then Some(Bold)
    else if word == "*" || word == "_" then Some(Italic)
    else if word == "__" then Some(Underline)
    else if word == "~~" then Some(Strikethrough)
    else None
  }

  // ============================================================ line state

  /** `cache_clean` (the text as it will be read, for width accounting),
      `cache_dirty` (the markup) and the style flags. */
  datatype Line = Line(clean: string, dirty: string, styles: Styles)

  const Initial: Line := Line("", "", NoStyles)

  /** `open_bold` and its siblings; the source asserts the style is closed. */
  function Opened(line: Line, st: Style): (r: Line)
    requires !IsOpen(line.styles, st)
  {
    Line(line.clean, line.dirty + OpenTag(st), SetOpen(line.styles, st, true))
  }

  /** `close_bold` and its siblings; the source asserts the style is open. */
  function Closed(line: Line, st: Style): (r: Line)
    requires IsOpen(line.styles, st)
  {
    Line(line.clean, line.dirty + CloseTag, SetOpen(line.styles, st, false))
  }

  /** The `try: close_… except AssertionError: open_…` of `transform_token`. */
  function Toggled(line: Line, st: Style): (r: Line) {
    if IsOpen(line.styles, st) then Closed(line, st) else Opened(line, st)
  }

  /** The markup of a coloured word; note the space after it. */
  function Coloured(colour: string, word: string): string {
    "<tspan fill=\"" + colour + "\">" + word + "</tspan> "
  }

  /** `append(word, color)`. */
  function Appended(line: Line, p: Piece): (r: Line)
    ensures r.clean == line.clean + p.word
    ensures r.styles == line.styles
  {
    var markup := match p.colour
      case None => p.word
      case Some(c) => Coloured(c, p.word);
    Line(line.clean + p.word, line.dirty + markup, line.styles)
  }

  /** The open styles in the fixed order bold, italic, underline,
      strikethrough: the `todo` list of `line_break`. */
  function OpenStyles(s: Styles): seq<Style> {
    var bold: seq<Style> := if s.bold then [Bold] else [];
    var italic := if s.italic then bold + [Italic] else bold;
    var underline := if s.underline then italic + [Underline] else italic;
    if s.strikethrough then underline + [Strikethrough] else underline
  }

  /** The opening tags of a list of styles, in list order. */
  function Tags(sts: seq<Style>): string {
    if sts == [] then "" else OpenTag(sts[0]) + Tags(sts[1..])
  }

  function Closers(n: nat): string {
    if n == 0 then "" else Closers(n - 1) + CloseTag
  }

  /** The flags after opening the styles of `sts` on a line with none open. */
  function StylesOf(sts: seq<Style>): Styles {
    if sts == [] then NoStyles else SetOpen(StylesOf(sts[..|sts| - 1]), sts[|sts| - 1], true)
  }

  /** `line_break`: the fragment it yields and the line it leaves. */
  function Flushed(line: Line): (string, Line) {
    var todo := OpenStyles(line.styles);
    (Replace(line.dirty, "> ", ">") + Closers(|todo|), Line("", Tags(todo), line.styles))
  }

  /** `transform_token` for one token; fails only where a mention names a
      user or channel the client does not know. */
  function Transformed(dir: Directory, line: Line, word: string): Result<Line> {
    match StyleOf(word)
    case Some(st) => Ok(Toggled(line, st))
    case None =>
      match WordPiece(dir, word)
      case Ok(p) => Ok(Appended(line, p))
      case Err(e) => Err(e)
  }

  /** The condition of the `elif` in the main loop. */
  predicate Overflows(line: Line, word: string, width: int) {
    |line.clean| + |word| > width && |line.clean| > 1
  }

  /** One turn of the main loop: the fragments it yields and the next line. */
  function Stepped(dir: Directory, width: int, line: Line, word: string): Result<(seq<string>, Line)> {
    if word == "\n" then
      var (f, next) := Flushed(line);
      Ok(([f], next))
    else if Overflows(line, word, width) then
      var (f, next) := Flushed(line);
      match Transformed(dir, next, word)
      case Ok(l) => Ok(([f], l))
      case Err(e) => Err(e)
    else
      match Transformed(dir, line, word)
      case Ok(l) => Ok(([], l))
      case Err(e) => Err(e)
  }

  /** The fragments the generator yields for the remaining tokens; an error
      raised by a lookup aborts the whole rendering. */
  function RunFrom(dir: Directory, width: int, line: Line, words: seq<string>): Result<seq<string>>
    decreases |words|
  {
    if words == [] then Ok([])
    else
      match Stepped(dir, width, line, words[0])
      case Err(e) => Err(e)
      case Ok((frags, next)) =>
        match RunFrom(dir, width, next, words[1..])
        case Err(e) => Err(e)
        case Ok(rest) => Ok(frags + rest)
  }

  /** `list(wrap_text_and_render_markdown_lines(text, width))`; a newline is
      appended to the text first. */
  function Render(dir: Directory, text: string, width: int): Result<seq<string>> {
    RunFrom(dir, width, Initial, SplitIntoWordsAndTokens(text + "\n"))
  }

  function Prefixed(lines: seq<string>, r: Result<seq<string>>): Result<seq<string>> {
    match r
    case Ok(rest) => Ok(lines + rest)
    case Err(e) => Err(e)
  }

  // ============================================================ the state

  /** The closure state of one call of `wrap_text_and_render_markdown_lines`. */
  class LineWrapper {
    const dir: Directory
    const width: int
    var clean: string
    var dirty: string
    var bold: bool
    var italic: bool
    var underline: bool
    var strikethrough: bool

    function State(): Line
      reads this
    {
      Line(clean, dirty, Styles(bold, italic, underline, strikethrough))
    }

    constructor (dir: Directory, width: int)
      ensures this.dir == dir && this.width == width
      ensures State() == Initial
    {
      this.dir := dir;
      this.width := width;
      clean, dirty := "", "";
      bold, italic, underline, strikethrough := false, false, false, false;
    }

    method Open(st: Style)
      requires !IsOpen(State().styles, st)
      modifies this
      ensures State() == Opened(old(State()), st)
    {
      match st {
        case Bold => bold := true;
        case Italic => italic := true;
        case Underline => underline := true;
        case Strikethrough => strikethrough := true;
      }
      dirty := dirty + OpenTag(st);
    }

    method Close(st: Style)
      requires IsOpen(State().styles, st)
      modifies this
      ensures State() == Closed(old(State()), st)
    {
      match st {
        case Bold => bold := false;
        case Italic => italic := false;
        case Underline => underline := false;
        case Strikethrough => strikethrough := false;
      }
      dirty := dirty + CloseTag;
    }

    method Toggle(st: Style)
      modifies this
      ensures State() == Toggled(old(State()), st)
    {
      if IsOpen(State().styles, st) {
        Close(st);
      } else {
        Open(st);
      }
    }

    method Append(p: Piece)
      modifies this
      ensures State() == Appended(old(State()), p)
    {
      clean := clean + p.word;
      match p.colour {
        case None => dirty := dirty + p.word;
        case Some(c) => dirty := dirty + Coloured(c, p.word);
      }
    }

    /** `line_break`: strip the space after every `>`, close the open styles,
        yield the markup, start an empty line and reopen the same styles. */
    method LineBreak() returns (fragment: string)
      modifies this
      ensures (fragment, State()) == Flushed(old(State()))
    {
      ghost var styles := State().styles;
      dirty := Replace(dirty, "> ", ">");
      var todo := CloseAll();
      fragment := dirty;
      clean, dirty := "", "";
      Reopen(todo);
      ReopenRestores(styles);
    }

    /** The four `with suppress(AssertionError)` blocks of `line_break`. */
    method CloseAll() returns (todo: seq<Style>)
      modifies this
      ensures todo == OpenStyles(old(State()).styles)
      ensures State() == Line(old(clean), old(dirty) + Closers(|todo|), NoStyles)
      ensures forall i, j | 0 <= i < j < |todo| :: todo[i] != todo[j]
    {
      OpenStylesDistinct(State().styles);
      ghost var start := dirty;
      ghost var c0 := clean;
      todo := [];
      if bold {
        ClosersStep(start, |todo|);
        Close(Bold);
        todo := todo + [Bold];
      }
      assert clean == c0 && dirty == start + Closers(|todo|) && !bold;
      if italic {
        ClosersStep(start, |todo|);
        Close(Italic);
        todo := todo + [Italic];
      }
      assert clean == c0 && dirty == start + Closers(|todo|) && !bold && !italic;
      if underline {
        ClosersStep(start, |todo|);
        Close(Underline);
        todo := todo + [Underline];
      }
      assert clean == c0 && dirty == start + Closers(|todo|) && !bold && !italic && !underline;
      if strikethrough {
        ClosersStep(start, |todo|);
        Close(Strikethrough);
        todo := todo + [Strikethrough];
      }
    }

    /** `for func in todo: func()`. */
    method Reopen(todo: seq<Style>)
      requires State().styles == NoStyles && clean == "" && dirty == ""
      requires forall i, j | 0 <= i < j < |todo| :: todo[i] != todo[j]
      modifies this
      ensures State() == Line("", Tags(todo), StylesOf(todo))
    {
      for i := 0 to |todo|
        invariant clean == "" && dirty == Tags(todo[..i])
        invariant State().styles == StylesOf(todo[..i])
      {
        ReopenStep(todo, i);
        Open(todo[i]);
      }
      assert todo[..|todo|] == todo;
    }

    /** The body of the main loop for one token. */
    method Step(word: string) returns (frags: seq<string>, r: Result<()>)
      modifies this
      ensures r.Ok? <==> Stepped(dir, width, old(State()), word).Ok?
      ensures r.Ok? ==> (frags, State()) == Stepped(dir, width, old(State()), word).value
      ensures r.Err? ==> r.error == Stepped(dir, width, old(State()), word).error
    {
      frags := [];
      if word == "\n" {
        var f := LineBreak();
        frags := [f];
        r := Ok(());
      } else if |clean| + |word| > width && |clean| > 1 {
        var f := LineBreak();
        frags := [f];
        r := TransformToken(word);
      } else {
        r := TransformToken(word);
      }
    }

    /** `transform_token`: a delimiter toggles its style; a mention is
        resolved; any other word is appended, coloured when it is a link. */
    method TransformToken(word: string) returns (r: Result<()>)
      modifies this
      ensures r.Ok? <==> Transformed(dir, old(State()), word).Ok?
      ensures r.Ok? ==> State() == Transformed(dir, old(State()), word).value
      ensures r.Err? ==> r.error == Transformed(dir, old(State()), word).error
    {
      if word == "**" {
        Toggle(Bold);
      } else if word == "*" || word == "_" {
        Toggle(Italic);
      } else if word == "__" {
        Toggle(Underline);
      } else if word == "~~" {
        Toggle(Strikethrough);
      } else {
        var m := ParseRef(word);
        if m.Some? {
          ParseRefSpec(word);
          var resolved := ResolveRef(dir, m.value);
          if resolved.Err? {
            return Err(resolved.error);
          }
          Append(resolved.value);
        } else {
          Append(Piece(word, if StartsWith(word, "http") then Some(Link) else None));
        }
      }
      return Ok(());
    }
  }

  /** `wrap_text_and_render_markdown_lines`, with the generator drained into
      a list. */
  method WrapTextAndRenderMarkdownLines(dir: Directory, text: string, lineWidth: int) returns (r: Result<seq<string>>)
    ensures r == Render(dir, text, lineWidth)
  {
    var words := SplitIntoWordsAndTokens(text + "\n");
    ghost var rendered := Render(dir, text, lineWidth);
    var wrapper := new LineWrapper(dir, lineWidth);
    var lines: seq<string> := [];
    assert words[0..] == words;
    PrefixedEmpty(RunFrom(dir, lineWidth, Initial, words));
    for i := 0 to |words|
      invariant wrapper.dir == dir && wrapper.width == lineWidth
      invariant rendered == Prefixed(lines, RunFrom(dir, lineWidth, wrapper.State(), words[i..]))
    {
      ghost var before := wrapper.State();
      var frags, res := wrapper.Step(words[i]);
      RunFromStep(dir, lineWidth, before, words[i..]);
      assert words[i..][0] == words[i] && words[i..][1..] == words[i + 1..];
      if res.Err? {
        assert RunFrom(dir, lineWidth, before, words[i..]) == Err(res.error);
        return Err(res.error);
      }
      ghost var rest := RunFrom(dir, lineWidth, wrapper.State(), words[i + 1..]);
      assert RunFrom(dir, lineWidth, before, words[i..]) == Prefixed(frags, rest);
      PrefixedAppend(lines, frags, rest);
      lines := lines + frags;
    }
    assert lines + [] == lines;
    return Ok(lines);
  }

  /** One token of the run: its fragments come first, then the rest's. */
  lemma RunFromStep(dir: Directory, width: int, line: Line, words: seq<string>)
    requires words != []
    ensures Stepped(dir, width, line, words[0]).Err? ==>
      RunFrom(dir, width, line, words) == Err(Stepped(dir, width, line, words[0]).error)
    ensures Stepped(dir, width, line, words[0]).Ok? ==>
      var (frags, next) := Stepped(dir, width, line, words[0]).value;
      RunFrom(dir, width, line, words) == Prefixed(frags, RunFrom(dir, width, next, words[1..]))
  {
  }

  lemma PrefixedEmpty(r: Result<seq<string>>)
    ensures Prefixed([], r) == r
  {
    if r.Ok? {
      assert [] + r.value == r.value;
    }
  }

  lemma PrefixedAppend(lines: seq<string>, frags: seq<string>, r: Result<seq<string>>)
    ensures Prefixed(lines, Prefixed(frags, r)) == Prefixed(lines + frags, r)
  {
    if r.Ok? {
      assert lines + (frags + r.value) == lines + frags + r.value;
    }
  }

  // ======================================================== flag lemmas

  lemma OpenStylesDistinct(s: Styles)
    ensures forall i, j | 0 <= i < j < |OpenStyles(s)| :: OpenStyles(s)[i] != OpenStyles(s)[j]
  {
  }

  lemma {:induction false} StylesOfOpen(sts: seq<Style>, st: Style)
    ensures IsOpen(StylesOf(sts), st) <==> st in sts
  {
    if sts != [] {
      StylesOfOpen(sts[..|sts| - 1], st);
      assert sts == sts[..|sts| - 1] + [sts[|sts| - 1]];
    }
  }

  /** One turn of `Reopen`'s loop: the next style is still closed, and
      opening it extends both the flags and the tags by that style. */
  lemma ReopenStep(todo: seq<Style>, i: nat)
    requires i < |todo|
    requires forall a, b | 0 <= a < b < |todo| :: todo[a] != todo[b]
    ensures !IsOpen(StylesOf(todo[..i]), todo[i])
    ensures StylesOf(todo[..i + 1]) == SetOpen(StylesOf(todo[..i]), todo[i], true)
    ensures Tags(todo[..i + 1]) == Tags(todo[..i]) + OpenTag(todo[i])
  {
    var done, st := todo[..i], todo[i];
    assert todo[..i + 1] == done + [st];
    DistinctNotBefore(todo, i);
    StylesOfOpen(done, st);
    StylesOfSnoc(done, st);
    TagsAppend(done, st);
  }

  lemma StylesOfSnoc(sts: seq<Style>, st: Style)
    ensures StylesOf(sts + [st]) == SetOpen(StylesOf(sts), st, true)
  {
    assert (sts + [st])[..|sts|] == sts;
  }

  lemma DistinctNotBefore(todo: seq<Style>, i: nat)
    requires i < |todo|
    requires forall a, b | 0 <= a < b < |todo| :: todo[a] != todo[b]
    ensures todo[i] !in todo[..i]
  {
    forall a | 0 <= a < i
      ensures todo[..i][a] != todo[i]
    {
      assert todo[..i][a] == todo[a];
    }
  }

  lemma {:induction false} TagsAppend(sts: seq<Style>, st: Style)
    ensures Tags(sts + [st]) == Tags(sts) + OpenTag(st)
  {
    if sts != [] {
      var longer := sts + [st];
      assert longer[0] == sts[0] && longer[1..] == sts[1..] + [st];
      TagsAppend(sts[1..], st);
      var first, rest, last := OpenTag(sts[0]), Tags(sts[1..]), OpenTag(st);
      calc {
        Tags(longer);
        first + Tags(sts[1..] + [st]);
        first + (rest + last);
        { assert first + (rest + last) == (first + rest) + last; }
        (first + rest) + last;
      }
    }
  }

  lemma ClosersStep(start: string, n: nat)
    ensures start + Closers(n) + CloseTag == start + Closers(n + 1)
  {
  }

  /** Reopening the styles `line_break` closed restores every flag. */
  lemma ReopenRestores(s: Styles)
    ensures StylesOf(OpenStyles(s)) == s
  {
    var sts := OpenStyles(s);
    var r := StylesOf(sts);
    StylesOfOpen(sts, Bold);
    OpenStylesHas(s, Bold);
    StylesOfOpen(sts, Italic);
    OpenStylesHas(s, Italic);
    StylesOfOpen(sts, Underline);
    OpenStylesHas(s, Underline);
    StylesOfOpen(sts, Strikethrough);
    OpenStylesHas(s, Strikethrough);
    assert r.bold == s.bold && r.italic == s.italic && r.underline == s.underline && r.strikethrough == s.strikethrough;
  }

  lemma OpenStylesHas(s: Styles, st: Style)
    ensures st in OpenStyles(s) <==> IsOpen(s, st)
  {
  }

  // ============================================================ properties

  /** Two toggles of one style restore every flag and leave the opening tag
      and `</tspan>` next to each other (in the order the flag dictates). */
  lemma ToggleTwice(line: Line, st: Style)
    ensures Toggled(Toggled(line, st), st).clean == line.clean
    ensures Toggled(Toggled(line, st), st).styles == line.styles
    ensures Toggled(Toggled(line, st), st).dirty ==
      line.dirty + if IsOpen(line.styles, st) then CloseTag + OpenTag(st) else OpenTag(st) + CloseTag
  {
    if IsOpen(line.styles, st) {
      CloseThenOpen(line, st);
      ConcatAssoc(line.dirty, CloseTag, OpenTag(st));
    } else {
      OpenThenClose(line, st);
      ConcatAssoc(line.dirty, OpenTag(st), CloseTag);
    }
  }

  lemma CloseThenOpen(line: Line, st: Style)
    requires IsOpen(line.styles, st)
    ensures Toggled(Toggled(line, st), st) == Line(line.clean, line.dirty + CloseTag + OpenTag(st), line.styles)
  {
    SetOpenBack(line.styles, st);
    var once := Closed(line, st);
    assert Toggled(once, st) == Opened(once, st);
  }

  lemma OpenThenClose(line: Line, st: Style)
    requires !IsOpen(line.styles, st)
    ensures Toggled(Toggled(line, st), st) == Line(line.clean, line.dirty + OpenTag(st) + CloseTag, line.styles)
  {
    SetOpenBack(line.styles, st);
    var once := Opened(line, st);
    assert Toggled(once, st) == Closed(once, st);
  }

  lemma SetOpenBack(s: Styles, st: Style)
    ensures SetOpen(SetOpen(s, st, !IsOpen(s, st)), st, IsOpen(s, st)) == s
  {
  }

  /** A style delimiter never fails, never changes the plain text, flips its
      own style and no other. */
  lemma DelimiterKeepsClean(dir: Directory, line: Line, word: string)
    requires word in MdTokens && word != " " && word != "\n"
    ensures Transformed(dir, line, word).Ok?
    ensures Transformed(dir, line, word).value.clean == line.clean
    ensures forall st: Style ::
      (IsOpen(Transformed(dir, line, word).value.styles, st) == (IsOpen(line.styles, st) != (StyleOf(word) == Some(st))))
  {
  }

  /** A word that is neither a delimiter nor a mention is appended as it is;
      its markup is coloured exactly when the word starts with `http`. */
  lemma PlainWordAppended(dir: Directory, line: Line, word: string)
    requires StyleOf(word).None? && forall p, d :: !IsRefMatch(word, p, d)
    ensures Transformed(dir, line, word) == Ok(Line(
      line.clean + word,
      line.dirty + if StartsWith(word, "http") then Coloured(Link, word) else word,
      line.styles))
  {
    PlainWordPiece(dir, word);
  }

  /** A user mention, `<@id>` or the nickname form `<@!id>`, adds `@` and the
      display name to the plain text, in the mention colour. */
  lemma UserMentionAppended(dir: Directory, line: Line, word: string, bang: bool, id: nat, tail: string)
    requires word == RefOpen + (if bang then "@!" else "@") + Decimal(id) + ">" + tail
    requires MemberName(dir, id).Ok?
    ensures Transformed(dir, line, word) == Ok(Appended(line, Piece("@" + MemberName(dir, id).value, Some(Link))))
    ensures Transformed(dir, line, word).value.clean == line.clean + "@" + MemberName(dir, id).value
  {
    var name := MemberName(dir, id).value;
    UserMentionPiece(dir, word, bang, id, tail);
    PieceAppended(dir, line, word, Piece("@" + name, Some(Link)));
    ConcatAssoc(line.clean, "@", name);
  }

  /** A user mention is no delimiter, and renders as `@` and the name. */
  lemma UserMentionPiece(dir: Directory, word: string, bang: bool, id: nat, tail: string)
    requires word == RefOpen + (if bang then "@!" else "@") + Decimal(id) + ">" + tail
    requires MemberName(dir, id).Ok?
    ensures StyleOf(word).None?
    ensures WordPiece(dir, word) == Ok(Piece("@" + MemberName(dir, id).value, Some(Link)))
  {
    UserMention(dir, word, bang, id, tail);
    RefHead(if bang then "@!" else "@", Decimal(id), tail);
    AmpWordNotDelimiter(word);
  }

  /** A word that is not a delimiter is appended as the piece it renders to. */
  lemma PieceAppended(dir: Directory, line: Line, word: string, piece: Piece)
    requires StyleOf(word).None? && WordPiece(dir, word) == Ok(piece)
    ensures Transformed(dir, line, word) == Ok(Appended(line, piece))
  {
  }

  lemma ConcatAssoc(a: string, b: string, c: string)
    ensures a + (b + c) == a + b + c
  {
  }

  /** A word of the mention shape starts with `&`. */
  lemma RefHead(p: string, d: string, tail: string)
    ensures var word := RefOpen + p + d + ">" + tail; word != [] && word[0] == '&'
  {
  }

  /** A mention never reaches the resolver with `*`, `_` or a space in its
      group 1: those characters are split off as delimiters first. So an
      emoji whose name holds `_` is never resolved as a mention. */
  lemma MentionTokenGroupOne(text: string)
    ensures forall t | t in SplitIntoWordsAndTokens(text) && ParseRef(t).Some? ::
      '*' !in ParseRef(t).value.prefix && '_' !in ParseRef(t).value.prefix && ' ' !in ParseRef(t).value.prefix
  {
    TokenShape(text);
    forall t | t in SplitIntoWordsAndTokens(text) && ParseRef(t).Some?
      ensures '*' !in ParseRef(t).value.prefix && '_' !in ParseRef(t).value.prefix && ' ' !in ParseRef(t).value.prefix
    {
      ParseRefSpec(t);
      var m := ParseRef(t).value;
      GroupOneWithin(t, m.prefix, m.digits);
      AmpTokenNotDelimiter(t);
    }
  }

  /** Every character of group 1 is a character of the word. */
  lemma GroupOneWithin(word: string, prefix: string, digits: string)
    requires IsRefMatch(word, prefix, digits)
    ensures word != [] && word[0] == '&'
    ensures forall c | c in prefix :: c in word
  {
    var whole := RefOpen + prefix + digits + ">";
    assert word[..|whole|] == whole;
    assert word[0] == whole[0] == '&';
    forall c | c in prefix
      ensures c in word
    {
      var j :| 0 <= j < |prefix| && prefix[j] == c;
      assert word[|RefOpen| + j] == whole[|RefOpen| + j] == c;
    }
  }

  /** No delimiter starts with `&`. */
  lemma AmpTokenNotDelimiter(word: string)
    requires word != [] && word[0] == '&'
    ensures word !in MdTokens
  {
    forall k | 0 <= k < |MdTokens|
      ensures MdTokens[k] != word
    {
      assert MdTokens[k][0] != '&';
    }
  }

  /** `<:a_b:id>`: a custom emoji whose name holds `_` never becomes a token
      of its own, whatever the message around it. */
  lemma UnderscoreEmojiSplit(text: string, a: string, b: string, id: nat)
    ensures RefOpen + ":" + a + "_" + b + ":" + Decimal(id) + ">" !in SplitIntoWordsAndTokens(text)
  {
    var word := RefOpen + ":" + a + "_" + b + ":" + Decimal(id) + ">";
    TokenShape(text);
    assert word[0] == '&';
    AmpTokenNotDelimiter(word);
    assert word[|RefOpen| + 1 + |a|] == '_';
  }

  /** A word that starts with `&` is not a style delimiter. */
  lemma AmpWordNotDelimiter(word: string)
    requires word != [] && word[0] == '&'
    ensures StyleOf(word).None?
  {
    assert word != "**" && word != "*" && word != "_" && word != "__" && word != "~~" by {
      assert "**"[0] == '*' && "*"[0] == '*' && "_"[0] == '_' && "__"[0] == '_' && "~~"[0] == '~';
    }
  }

  /** An opening tag ends in its only `>`, and what follows is another tag
      or nothing, so the `'> '` clean-up leaves the tag alone. */
  lemma TagReplace(st: Style, y: string)
    requires y == [] || y[0] == '<'
    ensures Replace(OpenTag(st) + y, "> ", ">") == OpenTag(st) + Replace(y, "> ", ">")
  {
    var w := OpenTagShape(st);
    EndingCloseReplace(OpenTag(st), w, y);
  }

  /** A tag `t` whose only `>` is its last character survives the clean-up. */
  lemma EndingCloseReplace(t: string, w: string, y: string)
    requires t == w + ">" && '>' !in w && (y == [] || y[0] == '<')
    ensures Replace(t + y, "> ", ">") == t + Replace(y, "> ", ">")
  {
    ReplaceSkip(w, ">" + y, "> ", ">");
    CloseBeforeTag(y);
    assert t + y == w + (">" + y);
    assert w + (">" + Replace(y, "> ", ">")) == t + Replace(y, "> ", ">");
  }

  /** A `>` followed by anything but a space is kept as it is. */
  lemma CloseBeforeTag(y: string)
    requires y == [] || y[0] != ' '
    ensures Replace(">" + y, "> ", ">") == ">" + Replace(y, "> ", ">")
  {
    var s := ">" + y;
    if y != [] {
      assert s[1] == y[0];
      MismatchAt(s, "> ", 1);
    }
    assert s[1..] == y;
  }

  /** The only `>` of an opening tag is its last character. */
  lemma OpenTagShape(st: Style) returns (w: string)
    ensures OpenTag(st) == w + ">" && '>' !in w
  {
    match st
    case Bold => w := "<tspan font-weight=\"bold\"";
    case Italic => w := "<tspan font-style=\"italic\"";
    case Underline => w := "<tspan font-decoration=\"underline\"";
    case Strikethrough => w := "<tspan font-decoration=\"line-through\"";
  }

  lemma {:induction false} TagsReplace(sts: seq<Style>)
    ensures Replace(Tags(sts), "> ", ">") == Tags(sts)
  {
    if sts != [] {
      TagsReplace(sts[1..]);
      TagsFront(sts[1..]);
      TagReplace(sts[0], Tags(sts[1..]));
    }
  }

  /** A run of opening tags is empty or starts a tag. */
  lemma TagsFront(sts: seq<Style>)
    ensures Tags(sts) == [] || Tags(sts)[0] == '<'
  {
    if sts != [] {
      var w := OpenTagShape(sts[0]);
      assert OpenTag(sts[0])[0] == '<';
    }
  }

  /** Flushing a line that holds nothing since its last flush yields just
      the reopened tags, each closed again, and leaves the same line: the
      tags carried over are never altered by the clean-up. */
  lemma FlushFresh(line: Line)
    ensures Flushed(Flushed(line).1) ==
      (Tags(OpenStyles(line.styles)) + Closers(|OpenStyles(line.styles)|), Flushed(line).1)
  {
    TagsReplace(OpenStyles(line.styles));
  }

  /** The greedy wrap: a plain word goes onto a fresh line exactly when the
      line holds more than one character and the word would pass the width,
      and a line grows past the width only when the word is preceded by at
      most one character. */
  lemma PlainWordWidth(dir: Directory, width: int, line: Line, word: string)
    requires word != "\n" && StyleOf(word).None? && forall p, d :: !IsRefMatch(word, p, d)
    ensures Stepped(dir, width, line, word).Ok?
    ensures |Stepped(dir, width, line, word).value.0| == if Overflows(line, word, width) then 1 else 0
    ensures Stepped(dir, width, line, word).value.1.clean ==
      (if Overflows(line, word, width) then "" else line.clean) + word
    ensures var clean := Stepped(dir, width, line, word).value.1.clean;
      |clean| <= width || |clean| <= |word| + 1
  {
    PlainWordAppended(dir, line, word);
    PlainWordAppended(dir, Flushed(line).1, word);
  }

  /** Every newline token yields a fragment, and no token yields more than
      one. */
  lemma {:induction false} RunFromCount(dir: Directory, width: int, line: Line, words: seq<string>)
    requires RunFrom(dir, width, line, words).Ok?
    ensures CountItem(words, "\n") <= |RunFrom(dir, width, line, words).value| <= |words|
    decreases |words|
  {
    if words != [] {
      RunFromStep(dir, width, line, words);
      var (frags, next) := Stepped(dir, width, line, words[0]).value;
      RunFromCount(dir, width, next, words[1..]);
    }
  }

  /** Every token, whatever its kind: a newline always flushes; any other
      token flushes first exactly when it would pass the width on a line
      holding more than one character, and is then processed on the fresh
      line; the flushed fragment is that of `line_break`. */
  lemma StepFragments(dir: Directory, width: int, line: Line, word: string)
    requires Stepped(dir, width, line, word).Ok?
    ensures var (frags, next) := Stepped(dir, width, line, word).value;
      |frags| == (if word == "\n" || Overflows(line, word, width) then 1 else 0) &&
      (frags != [] ==> frags[0] == Flushed(line).0) &&
      (word == "\n" ==> next == Flushed(line).1) &&
      (word != "\n" && Overflows(line, word, width) ==> Transformed(dir, Flushed(line).1, word) == Ok(next)) &&
      (word != "\n" && !Overflows(line, word, width) ==> Transformed(dir, line, word) == Ok(next))
  {
  }

  /** How many tokens of a run flush because they would pass the width (the
      `elif` of the main loop), each judged on the line the run has reached. */
  function OverflowBreaks(dir: Directory, width: int, line: Line, words: seq<string>): nat
    decreases |words|
  {
    if words == [] then 0
    else
      match Stepped(dir, width, line, words[0])
      case Err(_) => 0
      case Ok((_, next)) =>
        (if words[0] != "\n" && Overflows(line, words[0], width) then 1 else 0) +
        OverflowBreaks(dir, width, next, words[1..])
  }

  /** A run yields exactly one fragment per newline token plus one per
      overflow flush. */
  lemma {:induction false} RunFromFragments(dir: Directory, width: int, line: Line, words: seq<string>)
    requires RunFrom(dir, width, line, words).Ok?
    ensures |RunFrom(dir, width, line, words).value| ==
      CountItem(words, "\n") + OverflowBreaks(dir, width, line, words)
    decreases |words|
  {
    if words != [] {
      RunFromStep(dir, width, line, words);
      StepFragments(dir, width, line, words[0]);
      var (frags, next) := Stepped(dir, width, line, words[0]).value;
      RunFromFragments(dir, width, next, words[1..]);
    }
  }

  /** The trailing newline guarantees at least one fragment. */
  lemma RenderNonEmpty(dir: Directory, text: string, width: int)
    requires Render(dir, text, width).Ok?
    ensures |Render(dir, text, width).value| >= 1
  {
    NewlineToken(text);
    RunFromCount(dir, width, Initial, SplitIntoWordsAndTokens(text + "\n"));
  }

  /** Among the tokens of a text ending in a newline there is a newline
      token. */
  lemma NewlineToken(text: string)
    ensures CountItem(SplitIntoWordsAndTokens(text + "\n"), "\n") >= 1
  {
    var words := SplitIntoWordsAndTokens(text + "\n");
    NewlineSurvivesEscape(text + "\n");
    TokensConcat(text + "\n");
    var i := ConcatHasChar(words, '\n');
    TokenShape(text + "\n");
    assert words[i] in words;
    OnlyNewlineDelimiter(words[i]);
    CountItemIn(words, i);
  }

  lemma OnlyNewlineDelimiter(t: string)
    requires t in MdTokens && '\n' in t
    ensures t == "\n"
  {
  }

  lemma NewlineSurvivesEscape(s: string)
    requires '\n' in s
    ensures '\n' in Escape(s)
  {
    var a := Replace(s, "&", "&amp;");
    ReplaceKeepsChar(s, '\n', "&", "&amp;");
    var b := Replace(a, "&amp;amp;", "&amp;");
    ReplaceKeepsChar(a, '\n', "&amp;amp;", "&amp;");
    var c := Replace(b, "<", "&lt;");
    ReplaceKeepsChar(b, '\n', "<", "&lt;");
    ReplaceKeepsChar(c, '\n', "&amp;lt;", "&lt;");
  }

  lemma {:induction false} ConcatHasChar(items: seq<string>, c: char) returns (i: nat)
    requires c in Concat(items)
    ensures i < |items| && c in items[i]
  {
    if c in items[0] {
      i := 0;
    } else {
      i := ConcatHasChar(items[1..], c);
      i := i + 1;
    }
  }

  lemma {:induction false} CountItemIn(items: seq<string>, i: nat)
    requires i < |items|
    ensures CountItem(items, items[i]) >= 1
  {
    if i > 0 {
      CountItemIn(items[1..], i - 1);
    }
  }

  // ========================================================= an example

  /** The `'> '` clean-up deletes every space that directly follows a `>`,
      wherever it stands in the markup: the markup on either side of such a
      pair is cleaned on its own, since `'> '` cannot overlap itself. */
  lemma {:induction false} SpaceAfterTag(x: string, y: string)
    ensures Replace(x + ("> " + y), "> ", ">") == Replace(x, "> ", ">") + (">" + Replace(y, "> ", ">"))
    decreases |x|
  {
    var s := x + ("> " + y);
    if x == [] {
      assert s == "> " + y;
      ReplaceMatch(s, y, "> ", ">");
    } else if StartsWith(x, "> ") {
      TagSpaceFront(x, y);
      SpaceAfterTag(x[2..], y);
    } else {
      NoTagSpaceAcross(x, y);
      SpaceAfterTag(x[1..], y);
    }
  }

  /** A `'> '` at the front of `x` is the front of the whole markup. */
  lemma TagSpaceFront(x: string, y: string)
    requires StartsWith(x, "> ")
    ensures StartsWith(x + ("> " + y), "> ")
    ensures (x + ("> " + y))[2..] == x[2..] + ("> " + y)
  {
    assert (x + ("> " + y))[..2] == x[..2];
  }

  /** Without `'> '` at the front of non-empty `x`, none starts the markup
      either: a `>` ending `x` is followed by another `>`. */
  lemma NoTagSpaceAcross(x: string, y: string)
    requires x != [] && !StartsWith(x, "> ")
    ensures !StartsWith(x + ("> " + y), "> ")
    ensures (x + ("> " + y))[0] == x[0] && (x + ("> " + y))[1..] == x[1..] + ("> " + y)
  {
    var s := x + ("> " + y);
    if |x| >= 2 {
      assert s[..2] == x[..2];
    } else {
      assert s[1] == '>';
    }
  }

  /** In markup with exactly two `>`, a space typed after the second one is
      the only thing the `'> '` clean-up removes. */
  lemma SpaceAfterTagAlone(a: string, b: string, c: string)
    requires '>' !in a && '>' !in b && '>' !in c && (b == [] || b[0] != ' ')
    ensures Replace(a + (">" + (b + ("> " + c))), "> ", ">") == a + (">" + (b + (">" + c)))
  {
    ReplaceSkip(a, ">" + (b + ("> " + c)), "> ", ">");
    SpaceAfterClose(b, c);
  }

  lemma SpaceAfterClose(b: string, c: string)
    requires '>' !in b && '>' !in c && (b == [] || b[0] != ' ')
    ensures Replace(">" + (b + ("> " + c)), "> ", ">") == ">" + (b + (">" + c))
  {
    var y := b + ("> " + c);
    assert y[0] != ' ' by {
      if b == [] {
        assert y == "> " + c;
      }
    }
    CloseBeforeTag(y);
    ReplaceSkip(b, "> " + c, "> ", ">");
    SpaceSwallowed(c);
  }

  lemma SpaceSwallowed(c: string)
    requires '>' !in c
    ensures Replace("> " + c, "> ", ">") == ">" + c
  {
    ReplaceMatch("> " + c, c, "> ", ">");
    ReplaceSkip(c, [], "> ", ">");
    assert c + [] == c;
  }

  /** A plain word that fits is appended to the line, unchanged. */
  lemma PlainStep(dir: Directory, width: int, line: Line, word: string)
    requires word != [] && word[0] != '&' && !StartsWith(word, "http") && StyleOf(word).None? && word != "\n"
    requires !Overflows(line, word, width)
    ensures Stepped(dir, width, line, word) == Ok(([], Line(line.clean + word, line.dirty + word, line.styles)))
  {
    NotAmpNoRef(word);
    PlainWordAppended(dir, line, word);
  }

  /** A style delimiter that fits toggles its style. */
  lemma DelimiterStep(dir: Directory, width: int, line: Line, word: string, st: Style)
    requires StyleOf(word) == Some(st) && !Overflows(line, word, width)
    ensures Stepped(dir, width, line, word) == Ok(([], Toggled(line, st)))
  {
  }

  /** `**hi** there`: the bold word is wrapped in its tags, and the space
      typed after the closing tag is swallowed by the `'> '` clean-up, so
      the fragment runs `hi` and `there` together although the plain text
      (used for the width) keeps the space. */
  lemma BoldThenSpace(dir: Directory, width: int)
    requires width >= 8
    ensures RunFrom(dir, width, Initial, ["**", "hi", "**", " ", "there", "\n"]) ==
      Ok([OpenTag(Bold) + "hi" + CloseTag + "there"])
  {
    var w3: seq<string> := [" ", "there", "\n"];
    var w2 := ["**"] + w3;
    BoldHi(dir, width, w2);
    BoldClose(dir, width, w3);
    SpaceThenThere(dir, width);
    assert ["**", "hi"] + w2 == ["**", "hi", "**", " ", "there", "\n"];
  }

  /** The line once `**hi` has been read. */
  function InBold(): (l: Line)
    ensures l.clean == "hi" && IsOpen(l.styles, Bold)
  {
    Line("hi", OpenTag(Bold) + "hi", SetOpen(NoStyles, Bold, true))
  }

  /** `**` opens bold, and `hi` is appended inside it. */
  lemma BoldHi(dir: Directory, width: int, rest: seq<string>)
    requires width >= 8
    ensures RunFrom(dir, width, Initial, ["**", "hi"] + rest) == RunFrom(dir, width, InBold(), rest)
  {
    BoldOpen(dir, width, ["hi"] + rest);
    HiInBold(dir, width, rest);
    assert ["**", "hi"] + rest == ["**"] + (["hi"] + rest);
  }

  /** The line once the first `**` has been read. */
  function BoldOpened(): (l: Line)
    ensures l.clean == "" && IsOpen(l.styles, Bold)
  {
    Line("", OpenTag(Bold), SetOpen(NoStyles, Bold, true))
  }

  lemma BoldOpen(dir: Directory, width: int, rest: seq<string>)
    requires width >= 8
    ensures RunFrom(dir, width, Initial, ["**"] + rest) == RunFrom(dir, width, BoldOpened(), rest)
  {
    DelimiterStep(dir, width, Initial, "**", Bold);
    assert "" + OpenTag(Bold) == OpenTag(Bold);
    RunFromQuiet(dir, width, Initial, "**", rest, BoldOpened());
  }

  lemma HiInBold(dir: Directory, width: int, rest: seq<string>)
    requires width >= 8
    ensures RunFrom(dir, width, BoldOpened(), ["hi"] + rest) == RunFrom(dir, width, InBold(), rest)
  {
    assert "" + "hi" == "hi";
    PlainStep(dir, width, BoldOpened(), "hi");
    RunFromQuiet(dir, width, BoldOpened(), "hi", rest, InBold());
  }

  /** The second `**` closes bold. */
  lemma BoldClose(dir: Directory, width: int, rest: seq<string>)
    requires width >= 8
    ensures RunFrom(dir, width, InBold(), ["**"] + rest) == RunFrom(dir, width, AfterBold(), rest)
  {
    DelimiterStep(dir, width, InBold(), "**", Bold);
    RunFromQuiet(dir, width, InBold(), "**", rest, AfterBold());
  }

  /** The line once `**hi**` has been read: `hi` in the text, its bold tags
      in the markup, no style open. */
  function AfterBold(): (l: Line)
    ensures l.clean == "hi" && l.styles == NoStyles
  {
    Line("hi", OpenTag(Bold) + "hi" + CloseTag, NoStyles)
  }

  /** The rest of the run after `**hi**`: the space and `there` are appended,
      and the newline flushes the line. */
  lemma SpaceThenThere(dir: Directory, width: int)
    requires width >= 8
    ensures RunFrom(dir, width, AfterBold(), [" ", "there", "\n"]) ==
      Ok([OpenTag(Bold) + "hi" + CloseTag + "there"])
  {
    var b := OpenTag(Bold);
    var l3 := AfterBold();
    var l4 := Line("hi ", b + "hi" + CloseTag + " ", NoStyles);
    var l5 := Line("hi there", b + "hi" + CloseTag + " " + "there", NoStyles);
    var fragment := BoldFragment();
    var w5: seq<string> := ["\n"];
    var w4 := ["there"] + w5;
    var w3 := [" "] + w4;
    FlushStep(dir, width, l5);
    RunFromLast(dir, width, l5, "\n", fragment, Flushed(l5).1);
    assert "hi " + "there" == "hi there";
    PlainStep(dir, width, l4, "there");
    RunFromQuiet(dir, width, l4, "there", w5, l5);
    assert "hi" + " " == "hi ";
    PlainStep(dir, width, l3, " ");
    RunFromQuiet(dir, width, l3, " ", w4, l4);
    assert w3 == [" ", "there", "\n"];
  }

  /** `wrap_text_and_render_markdown_lines("**hi** there", 100)` yields one
      fragment: the bold word, its closing tag and the next word, the space
      between them swallowed by the `'> '` clean-up. */
  lemma WorkedExample(dir: Directory)
    ensures Render(dir, "**hi** there", 100) == Ok([OpenTag(Bold) + "hi" + CloseTag + "there"])
  {
    assert "**hi** there" + "\n" == "**" + "hi" + "**" + (" " + "there" + "\n");
    BoldWordTokens("hi", "there");
    BoldThenSpace(dir, 100);
  }

  /** A newline token flushes the line. */
  lemma FlushStep(dir: Directory, width: int, line: Line)
    ensures Stepped(dir, width, line, "\n") == Ok(([Flushed(line).0], Flushed(line).1))
  {
  }

  /** A token that yields no fragment hands the rest of the run its line. */
  lemma RunFromQuiet(dir: Directory, width: int, line: Line, word: string, rest: seq<string>, next: Line)
    requires Stepped(dir, width, line, word) == Ok(([], next))
    ensures RunFrom(dir, width, line, [word] + rest) == RunFrom(dir, width, next, rest)
  {
    var words := [word] + rest;
    assert words[0] == word && words[1..] == rest;
    RunFromStep(dir, width, line, words);
    PrefixedEmpty(RunFrom(dir, width, next, rest));
  }

  /** The last token of a run yields the run's last fragments. */
  lemma RunFromLast(dir: Directory, width: int, line: Line, word: string, fragment: string, next: Line)
    requires Stepped(dir, width, line, word) == Ok(([fragment], next))
    ensures RunFrom(dir, width, line, [word]) == Ok([fragment])
  {
    assert [word][1..] == [];
    RunFromStep(dir, width, line, [word]);
    assert [fragment] + [] == [fragment];
  }

  /** The fragment of the example. */
  lemma BoldFragment() returns (fragment: string)
    ensures fragment == OpenTag(Bold) + "hi" + CloseTag + "there"
    ensures Flushed(Line("hi there", OpenTag(Bold) + "hi" + CloseTag + " " + "there", NoStyles)).0 == fragment
  {
    var w := OpenTagShape(Bold);
    var inner, c := "hi</tspan", "there";
    assert CloseTag == "</tspan" + ">";
    assert '>' !in inner && '>' !in c;
    SpaceAfterTagAlone(w, inner, c);
    fragment := w + (">" + (inner + (">" + c)));
    assert OpenTag(Bold) + "hi" + CloseTag + " " + "there" == w + (">" + (inner + ("> " + c)));
  }
}
