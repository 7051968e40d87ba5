/** The tokenizer and escaper of the text engine (`md_tokens`, `weave`,
    `split_around`, `split_into_words_and_tokens` in bot.py). Seven split
    passes, one per markdown delimiter in a fixed order; every pass re-inserts
    the delimiter as a token of its own and re-applies the four-step `&`/`<`
    escape chain to every piece; empty strings are dropped at the end. */
module Tokenizer {
  import opened PyStr

  /** The delimiters, in the order the passes run: bold, italic (asterisk),
      underline, italic (underscore), strikethrough, space, newline. */
  const MdTokens: seq<string> := ["**", "*", "__", "_", "~~", " ", "\n"]

  /** Characters that make up the entities `&amp;` and `&lt;` and the raw
      characters they stand for. No delimiter contains any of them. */
  const EntityChars: string := "&<amp;lt"

  /** A divider that can neither be part of an entity nor of what is escaped. */
  predicate Inert(d: string) {
    d != [] && forall c | c in d :: c !in EntityChars
  }

  lemma MdTokensInert(k: nat)
    requires k < |MdTokens|
    ensures Inert(MdTokens[k])
  {
  }

  /** `weave`: the pieces with `item` between each two neighbours. The source
      draws the first piece with `next`, so it needs at least one. */
  function Weave(pieces: seq<string>, item: string): seq<string>
    requires |pieces| >= 1
  {
    if |pieces| == 1 then [pieces[0]] else [pieces[0], item] + Weave(pieces[1..], item)
  }

  /** `split_around`: a line that is itself a delimiter stays whole; any other
      line is split at the divider, with the divider woven back in. */
  function SplitAround(line: string, divider: string): seq<string>
    requires divider != []
  {
    if line in MdTokens then [line] else Weave(Split(line, divider), divider)
  }

  /** The escape chain applied to every piece on every pass. */
  function Escape(item: string): string {
    Replace(Replace(Replace(Replace(item, "&", "&amp;"), "&amp;amp;", "&amp;"), "<", "&lt;"), "&amp;lt;", "&lt;")
  }

  /** Reference definition of what the chain does, in one left-to-right scan:
      an existing `&amp;` or `&lt;` entity is kept (and `&amp;lt;` is read as
      `&lt;`), any other `&` and every `<` are escaped. */
  function EscapeOnce(s: string): string
    decreases |s|
  {
    if s == [] then []
    else if StartsWith(s, "&amp;lt;") then "&lt;" + EscapeOnce(s[8..])
    else if StartsWith(s, "&amp;") then "&amp;" + EscapeOnce(s[5..])
    else if StartsWith(s, "&lt;") then "&lt;" + EscapeOnce(s[4..])
    else if s[0] == '&' then "&amp;" + EscapeOnce(s[1..])
    else if s[0] == '<' then "&lt;" + EscapeOnce(s[1..])
    else [s[0]] + EscapeOnce(s[1..])
  }

  function EscapeAll(items: seq<string>): (escaped: seq<string>)
    ensures |escaped| == |items|
    ensures forall i | 0 <= i < |items| :: escaped[i] == Escape(items[i])
  {
    seq(|items|, i requires 0 <= i < |items| => Escape(items[i]))
  }

  /** One pass of the comprehension in `split_into_words_and_tokens`. */
  function Pass(lines: seq<string>, divider: string): seq<string>
    requires divider != []
  {
    if lines == [] then [] else EscapeAll(SplitAround(lines[0], divider)) + Pass(lines[1..], divider)
  }

  /** The passes for `MdTokens[k..]`, in order. */
  function PassesFrom(lines: seq<string>, k: nat): seq<string>
    requires k <= |MdTokens|
    decreases |MdTokens| - k
  {
    if k == |MdTokens| then lines else PassesFrom(Pass(lines, MdTokens[k]), k + 1)
  }

  /** `filter(None, lines)`: the empty strings are dropped. */
  function NonEmpty(lines: seq<string>): (kept: seq<string>)
    ensures forall t | t in kept :: t != [] && t in lines
    ensures forall t | t in lines && t != [] :: t in kept
  {
    if lines == [] then []
    else if lines[0] == [] then NonEmpty(lines[1..])
    else [lines[0]] + NonEmpty(lines[1..])
  }

  /** `split_into_words_and_tokens`. */
  function SplitIntoWordsAndTokens(text: string): seq<string> {
    NonEmpty(PassesFrom([text], 0))
  }

  // ------------------------------------------------ same passes, no escaping

  function SplitPass(lines: seq<string>, divider: string): seq<string>
    requires divider != []
  {
    if lines == [] then [] else SplitAround(lines[0], divider) + SplitPass(lines[1..], divider)
  }

  function SplitPassesFrom(lines: seq<string>, k: nat): seq<string>
    requires k <= |MdTokens|
    decreases |MdTokens| - k
  {
    if k == |MdTokens| then lines else SplitPassesFrom(SplitPass(lines, MdTokens[k]), k + 1)
  }

  // ======================================================== split_around

  lemma {:induction false} WeaveShape(pieces: seq<string>, item: string)
    requires |pieces| >= 1
    ensures |Weave(pieces, item)| == 2 * |pieces| - 1
    ensures forall i | 0 <= i < |pieces| :: Weave(pieces, item)[2 * i] == pieces[i]
    ensures forall i | 0 <= i < |pieces| - 1 :: Weave(pieces, item)[2 * i + 1] == item
  {
    if |pieces| > 1 {
      WeaveShape(pieces[1..], item);
      var w := Weave(pieces, item);
      var rest := Weave(pieces[1..], item);
      assert w == [pieces[0], item] + rest;
      forall i | 1 <= i < |pieces|
        ensures w[2 * i] == pieces[i]
      {
        assert w[2 * i] == rest[2 * (i - 1)];
      }
      forall i | 1 <= i < |pieces| - 1
        ensures w[2 * i + 1] == item
      {
        assert w[2 * i + 1] == rest[2 * (i - 1) + 1];
      }
    }
  }

  lemma {:induction false} WeaveConcat(pieces: seq<string>, item: string)
    requires |pieces| >= 1
    ensures Concat(Weave(pieces, item)) == Join(pieces, item)
  {
    if |pieces| > 1 {
      WeaveConcat(pieces[1..], item);
      var rest := Weave(pieces[1..], item);
      ConcatAppend([pieces[0], item], rest);
      assert Concat([pieces[0], item]) == pieces[0] + item by {
        assert [pieces[0], item][1..] == [item];
        assert Concat([item]) == item + Concat([]);
      }
    } else {
      assert Concat([pieces[0]]) == pieces[0] + Concat([]);
    }
  }

  /** `split_around` loses no text: its pieces concatenate back to the line. */
  lemma SplitAroundConcat(line: string, divider: string)
    requires divider != []
    ensures Concat(SplitAround(line, divider)) == line
  {
    if line in MdTokens {
      assert Concat([line]) == line + Concat([]);
    } else {
      WeaveConcat(Split(line, divider), divider);
      SplitJoin(line, divider);
    }
  }

  /** Outside the delimiters themselves, `split_around` alternates pieces free
      of the divider with the divider, one divider per occurrence in the line. */
  lemma SplitAroundShape(line: string, divider: string)
    requires divider != [] && line !in MdTokens
    ensures |SplitAround(line, divider)| == 2 * Count(line, divider) + 1
    ensures forall j | 0 <= j <= Count(line, divider) :: !Occurs(SplitAround(line, divider)[2 * j], divider)
    ensures forall j | 0 <= j < Count(line, divider) :: SplitAround(line, divider)[2 * j + 1] == divider
  {
    var pieces := Split(line, divider);
    WeaveShape(pieces, divider);
    SplitCount(line, divider);
    forall j | 0 <= j < |pieces|
      ensures !Occurs(SplitAround(line, divider)[2 * j], divider)
    {
      SplitPiecesFree(line, divider, j);
    }
  }

  // ======================================================== the escape chain

  /** The four `replace` calls compute the one-scan reference definition. */
  lemma {:induction false} EscapeIsEscapeOnce(s: string)
    ensures Escape(s) == EscapeOnce(s)
    decreases |s|
  {
    if s == [] {
      return;
    }
    var amp, lt, amplt := "&amp;", "&lt;", "&amp;lt;";
    if StartsWith(s, amplt) {
      var t := s[8..];
      EscapeIsEscapeOnce(t);
      assert s == amplt + t;
      EscapeChainAmpLt(t);
      EscapeOnceAmpLt(t);
    } else if StartsWith(s, amp) {
      var t := s[5..];
      EscapeIsEscapeOnce(t);
      assert s == amp + t;
      StartsWithCommon(amp, t, "lt;");
      assert amp + "lt;" == amplt;
      EscapeChainAmp(t);
      EscapeOnceAmp(t);
    } else if StartsWith(s, lt) {
      var t := s[4..];
      EscapeIsEscapeOnce(t);
      assert s == lt + t;
      EscapeChainLt(t);
      EscapeOnceLt(t);
    } else if s[0] == '&' {
      var t := s[1..];
      EscapeIsEscapeOnce(t);
      assert s == "&" + t;
      StartsWithCommon("&", t, "amp;");
      StartsWithCommon("&", t, "lt;");
      assert "&" + "amp;" == amp && "&" + "lt;" == lt;
      EscapeChainBareAmp(t);
      EscapeOnceBareAmp(t);
    } else if s[0] == '<' {
      var t := s[1..];
      EscapeIsEscapeOnce(t);
      assert s == "<" + t;
      EscapeChainAngle(t);
      EscapeOnceAngle(t);
    } else {
      var t := s[1..];
      EscapeIsEscapeOnce(t);
      assert s == [s[0]] + t;
      EscapeChainPlain(s[0], t);
      EscapeOncePlain(s[0], t);
    }
  }

  /** The intermediate strings of the chain, in order. */
  function R1(s: string): string { Replace(s, "&", "&amp;") }
  function R2(s: string): string { Replace(R1(s), "&amp;amp;", "&amp;") }
  function R3(s: string): string { Replace(R2(s), "<", "&lt;") }

  lemma R1Amp(y: string)
    ensures R1("&" + y) == "&amp;" + R1(y)
  {
    ReplaceMatch("&" + y, y, "&", "&amp;");
  }

  lemma EscapeChainAmpLt(t: string)
    ensures Escape("&amp;lt;" + t) == "&lt;" + Escape(t)
  {
    var s := "&amp;lt;" + t;
    R2AmpLt(t);
    ReplaceSkip("&amp;lt;", R2(t), "<", "&lt;");
    ReplaceMatch(R3(s), R3(t), "&amp;lt;", "&lt;");
  }

  lemma R1AmpLt(t: string)
    ensures R1("&amp;lt;" + t) == "&amp;amp;" + ("lt;" + R1(t))
  {
    R1Amp("amp;lt;" + t);
    assert "&amp;lt;" + t == "&" + ("amp;lt;" + t);
    ReplaceSkip("amp;lt;", t, "&", "&amp;");
    assert "&amp;" + ("amp;lt;" + R1(t)) == "&amp;amp;" + ("lt;" + R1(t));
  }

  lemma R2AmpLt(t: string)
    ensures R2("&amp;lt;" + t) == "&amp;lt;" + R2(t)
  {
    R1AmpLt(t);
    ReplaceMatch(R1("&amp;lt;" + t), "lt;" + R1(t), "&amp;amp;", "&amp;");
    ReplaceSkip("lt;", R1(t), "&amp;amp;", "&amp;");
    assert "&amp;" + ("lt;" + R2(t)) == "&amp;lt;" + R2(t);
  }

  lemma EscapeChainAmp(t: string)
    requires !StartsWith(t, "lt;")
    ensures Escape("&amp;" + t) == "&amp;" + Escape(t)
  {
    var s := "&amp;" + t;
    R1AmpEntity(t);
    ReplaceMatch(R1(s), R1(t), "&amp;amp;", "&amp;");
    ReplaceSkip("&amp;", R2(t), "<", "&lt;");
    AmpThenChainRest(t);
  }

  /** The last step after an `&amp;` that the first three steps produced. */
  lemma AmpThenChainRest(t: string)
    requires !StartsWith(t, "lt;")
    ensures Replace("&amp;" + R3(t), "&amp;lt;", "&lt;") == "&amp;" + Escape(t)
  {
    ChainKeepsPlainPrefix(t, "lt;");
    AmpNotAmpLt(R3(t));
    AmpThenRest(R3(t));
  }

  lemma R1AmpEntity(t: string)
    ensures R1("&amp;" + t) == "&amp;amp;" + R1(t)
  {
    var s := "&amp;" + t;
    assert s == "&" + ("amp;" + t);
    R1Amp("amp;" + t);
    ReplaceSkip("amp;", t, "&", "&amp;");
    assert "&amp;" + ("amp;" + R1(t)) == "&amp;amp;" + R1(t);
  }

  /** The last step leaves `&amp;` alone when `lt;` does not follow. */
  lemma AmpThenRest(y: string)
    requires !StartsWith("&amp;" + y, "&amp;lt;")
    ensures Replace("&amp;" + y, "&amp;lt;", "&lt;") == "&amp;" + Replace(y, "&amp;lt;", "&lt;")
  {
    assert "&amp;" + y == "&" + ("amp;" + y);
    NoMatchThenSkip("&amp;" + y, "&", "amp;" + y, "&amp;lt;", "&lt;");
    ReplaceSkip("amp;", y, "&amp;lt;", "&lt;");
  }

  /** `&amp;` followed by anything but `lt;` is not `&amp;lt;`. */
  lemma AmpNotAmpLt(y: string)
    requires !StartsWith(y, "lt;")
    ensures !StartsWith("&amp;" + y, "&amp;lt;")
  {
    assert "&amp;lt;" == "&amp;" + "lt;";
    StartsWithCommon("&amp;", y, "lt;");
  }

  lemma EscapeChainLt(t: string)
    ensures Escape("&lt;" + t) == "&lt;" + Escape(t)
  {
    var s := "&lt;" + t;
    R2Lt(t);
    ReplaceSkip("&amp;lt;", R2(t), "<", "&lt;");
    ReplaceMatch(R3(s), R3(t), "&amp;lt;", "&lt;");
  }

  lemma R1Lt(t: string)
    ensures R1("&lt;" + t) == "&amp;lt;" + R1(t)
  {
    R1Amp("lt;" + t);
    assert "&lt;" + t == "&" + ("lt;" + t);
    ReplaceSkip("lt;", t, "&", "&amp;");
    assert "&amp;" + ("lt;" + R1(t)) == "&amp;lt;" + R1(t);
  }

  lemma R2Lt(t: string)
    ensures R2("&lt;" + t) == "&amp;lt;" + R2(t)
  {
    var x := R1("&lt;" + t);
    R1Lt(t);
    MismatchAt(x, "&amp;amp;", 5);
    assert x == "&" + ("amp;lt;" + R1(t));
    NoMatchThenSkip(x, "&", "amp;lt;" + R1(t), "&amp;amp;", "&amp;");
    ReplaceSkip("amp;lt;", R1(t), "&amp;amp;", "&amp;");
    assert "&" + ("amp;lt;" + R2(t)) == "&amp;lt;" + R2(t);
  }

  lemma EscapeChainBareAmp(t: string)
    requires !StartsWith(t, "amp;") && !StartsWith(t, "lt;")
    ensures Escape("&" + t) == "&amp;" + Escape(t)
  {
    R2BareAmp(t);
    ReplaceSkip("&amp;", R2(t), "<", "&lt;");
    AmpThenChainRest(t);
  }

  lemma R2BareAmp(t: string)
    requires !StartsWith(t, "amp;")
    ensures R2("&" + t) == "&amp;" + R2(t)
  {
    var x := R1("&" + t);
    R1Amp(t);
    ReplaceStartsWith(t, "amp;", "&", "&amp;");
    assert "&amp;amp;" == "&amp;" + "amp;";
    StartsWithCommon("&amp;", R1(t), "amp;");
    assert x == "&" + ("amp;" + R1(t));
    NoMatchThenSkip(x, "&", "amp;" + R1(t), "&amp;amp;", "&amp;");
    ReplaceSkip("amp;", R1(t), "&amp;amp;", "&amp;");
    assert "&" + ("amp;" + R2(t)) == "&amp;" + R2(t);
  }

  lemma EscapeChainAngle(t: string)
    ensures Escape("<" + t) == "&lt;" + Escape(t)
  {
    var s := "<" + t;
    ReplaceSkip("<", t, "&", "&amp;");
    ReplaceSkip("<", R1(t), "&amp;amp;", "&amp;");
    ReplaceMatch(R2(s), R2(t), "<", "&lt;");
    LtSurvivesLast(R3(t));
  }

  /** The last step keeps an `&lt;` entity. */
  lemma LtSurvivesLast(y: string)
    ensures Replace("&lt;" + y, "&amp;lt;", "&lt;") == "&lt;" + Replace(y, "&amp;lt;", "&lt;")
  {
    var x := "&lt;" + y;
    MismatchAt(x, "&amp;lt;", 1);
    assert x == "&" + ("lt;" + y);
    NoMatchThenSkip(x, "&", "lt;" + y, "&amp;lt;", "&lt;");
    ReplaceSkip("lt;", y, "&amp;lt;", "&lt;");
    assert "&" + ("lt;" + Replace(y, "&amp;lt;", "&lt;")) == "&lt;" + Replace(y, "&amp;lt;", "&lt;");
  }

  lemma EscapeChainPlain(c: char, t: string)
    requires c != '&' && c != '<'
    ensures Escape([c] + t) == [c] + Escape(t)
  {
    ReplaceSkip([c], t, "&", "&amp;");
    ReplaceSkip([c], R1(t), "&amp;amp;", "&amp;");
    ReplaceSkip([c], R2(t), "<", "&lt;");
    ReplaceSkip([c], R3(t), "&amp;lt;", "&lt;");
  }

  /** When the front does not match, `replace` keeps the first character and
      moves on. */
  lemma NoMatchThenSkip(x: string, c: string, y: string, p: string, r: string)
    requires |c| == 1 && x == c + y && p != [] && !StartsWith(x, p)
    ensures Replace(x, p, r) == c + Replace(y, p, r)
  {
    assert x[0] == c[0] && x[1..] == y && [x[0]] == c;
  }

  /** A prefix made of ordinary letters survives the first three steps. */
  lemma ChainKeepsPlainPrefix(t: string, w: string)
    requires forall ch | ch in w :: ch != '&' && ch != '<'
    ensures StartsWith(R3(t), w) <==> StartsWith(t, w)
  {
    ReplaceStartsWith(t, w, "&", "&amp;");
    ReplaceStartsWith(R1(t), w, "&amp;amp;", "&amp;");
    ReplaceStartsWith(R2(t), w, "<", "&lt;");
  }

  // ------------------------------------------ the reference definition, unit by unit

  lemma EscapeOnceAmpLt(y: string)
    ensures EscapeOnce("&amp;lt;" + y) == "&lt;" + EscapeOnce(y)
  {
    var s := "&amp;lt;" + y;
    assert s[..8] == "&amp;lt;" && s[8..] == y;
  }

  lemma EscapeOnceAmp(y: string)
    requires !StartsWith(y, "lt;")
    ensures EscapeOnce("&amp;" + y) == "&amp;" + EscapeOnce(y)
  {
    var s := "&amp;" + y;
    assert s[..5] == "&amp;" && s[5..] == y;
    assert !StartsWith(s, "&amp;lt;");
  }

  lemma EscapeOnceLt(y: string)
    ensures EscapeOnce("&lt;" + y) == "&lt;" + EscapeOnce(y)
  {
    var s := "&lt;" + y;
    assert s[..4] == "&lt;" && s[4..] == y;
    assert s[1] == 'l';
    MismatchAt(s, "&amp;lt;", 1);
    MismatchAt(s, "&amp;", 1);
  }

  lemma EscapeOnceBareAmp(y: string)
    requires !StartsWith(y, "amp;") && !StartsWith(y, "lt;")
    ensures EscapeOnce("&" + y) == "&amp;" + EscapeOnce(y)
  {
    var s := "&" + y;
    assert s[1..] == y;
    assert "&amp;" == "&" + "amp;" && "&lt;" == "&" + "lt;";
    StartsWithCommon("&", y, "amp;");
    StartsWithCommon("&", y, "lt;");
    assert "&amp;lt;"[..5] == "&amp;";
    assert !StartsWith(s, "&amp;lt;");
  }

  lemma EscapeOnceAngle(y: string)
    ensures EscapeOnce("<" + y) == "&lt;" + EscapeOnce(y)
  {
    var s := "<" + y;
    assert s[0] == '<' && s[1..] == y;
    MismatchAt(s, "&amp;lt;", 0);
    MismatchAt(s, "&amp;", 0);
    MismatchAt(s, "&lt;", 0);
  }

  lemma EscapeOncePlain(c: char, y: string)
    requires c != '&' && c != '<'
    ensures EscapeOnce([c] + y) == [c] + EscapeOnce(y)
  {
    var s := [c] + y;
    assert s[0] == c && s[1..] == y;
    MismatchAt(s, "&amp;lt;", 0);
    MismatchAt(s, "&amp;", 0);
    MismatchAt(s, "&lt;", 0);
  }

  /** Text without `&` and `<` is left alone at the front. */
  lemma {:induction false} EscapeOnceSkip(w: string, y: string)
    requires '&' !in w && '<' !in w
    ensures EscapeOnce(w + y) == w + EscapeOnce(y)
  {
    if w != [] {
      var c, t := w[0], w[1..];
      assert w == [c] + t;
      assert w + y == [c] + (t + y);
      EscapeOnceSkip(t, y);
      EscapeOncePlain(c, t + y);
      assert [c] + (t + EscapeOnce(y)) == w + EscapeOnce(y);
    } else {
      assert w + y == y;
    }
  }

  /** A prefix without `&` and `<` is a prefix of the escaped text exactly when
      it is one of the input. */
  lemma {:induction false} EscapeOnceStartsWith(t: string, w: string)
    requires '&' !in w && '<' !in w
    ensures StartsWith(EscapeOnce(t), w) <==> StartsWith(t, w)
    decreases |t|
  {
    if w == [] || t == [] {
    } else if t[0] == '&' || t[0] == '<' {
      assert EscapeOnce(t)[0] == '&';
      StartsWithTail(t, w);
      StartsWithTail(EscapeOnce(t), w);
    } else {
      assert t == [t[0]] + t[1..];
      EscapeOncePlain(t[0], t[1..]);
      EscapeOnceStartsWith(t[1..], w[1..]);
      StartsWithTail(t, w);
      StartsWithTail(EscapeOnce(t), w);
      assert EscapeOnce(t)[1..] == EscapeOnce(t[1..]);
    }
  }

  /** Escaping already-escaped text changes nothing: however many passes run
      over a piece, its `&` and `<` are escaped once. */
  lemma {:induction false} EscapeOnceIdempotent(s: string)
    ensures EscapeOnce(EscapeOnce(s)) == EscapeOnce(s)
    decreases |s|
  {
    if s == [] {
    } else if StartsWith(s, "&amp;lt;") {
      EscapeOnceIdempotent(s[8..]);
      IdempotentAmpLt(s);
    } else if StartsWith(s, "&amp;") {
      EscapeOnceIdempotent(s[5..]);
      IdempotentAmp(s);
    } else if StartsWith(s, "&lt;") {
      EscapeOnceIdempotent(s[4..]);
      IdempotentLt(s);
    } else if s[0] == '&' {
      EscapeOnceIdempotent(s[1..]);
      IdempotentBareAmp(s);
    } else {
      EscapeOnceIdempotent(s[1..]);
      IdempotentOther(s);
    }
  }

  ghost predicate Idempotent(s: string) {
    EscapeOnce(EscapeOnce(s)) == EscapeOnce(s)
  }

  lemma IdempotentAmpLt(s: string)
    requires StartsWith(s, "&amp;lt;") && Idempotent(s[8..])
    ensures Idempotent(s)
  {
    EscapeOnceLt(EscapeOnce(s[8..]));
  }

  lemma IdempotentAmp(s: string)
    requires StartsWith(s, "&amp;") && !StartsWith(s, "&amp;lt;") && Idempotent(s[5..])
    ensures Idempotent(s)
  {
    var t := s[5..];
    assert s == "&amp;" + t;
    AmpNotAmpLt'(s, t);
    EscapeOnceStartsWith(t, "lt;");
    EscapeOnceAmp(EscapeOnce(t));
  }

  lemma IdempotentLt(s: string)
    requires StartsWith(s, "&lt;") && !StartsWith(s, "&amp;lt;") && !StartsWith(s, "&amp;") && Idempotent(s[4..])
    ensures Idempotent(s)
  {
    EscapeOnceLt(EscapeOnce(s[4..]));
  }

  lemma IdempotentBareAmp(s: string)
    requires s != [] && s[0] == '&' && !StartsWith(s, "&amp;") && !StartsWith(s, "&lt;") && Idempotent(s[1..])
    ensures Idempotent(s)
  {
    var t := s[1..];
    assert s == "&" + t;
    BareAmpLookahead(s, t);
    EscapeOnceBareAmp(t);
    EscapeOnceStartsWith(t, "lt;");
    EscapeOnceAmp(EscapeOnce(t));
  }

  lemma IdempotentOther(s: string)
    requires s != [] && s[0] != '&' && Idempotent(s[1..])
    ensures Idempotent(s)
  {
    var t := s[1..];
    assert s == [s[0]] + t;
    if s[0] == '<' {
      EscapeOnceAngle(t);
      EscapeOnceLt(EscapeOnce(t));
    } else {
      EscapeOncePlain(s[0], t);
      EscapeOncePlain(s[0], EscapeOnce(t));
    }
  }

  /** The chain is idempotent. */
  lemma EscapeIdempotent(s: string)
    ensures Escape(Escape(s)) == Escape(s)
  {
    EscapeIsEscapeOnce(s);
    EscapeIsEscapeOnce(Escape(s));
    EscapeOnceIdempotent(s);
  }

  // ------------------------------------- no `&amp;lt;` survives the chain

  /** The chain never leaves `&amp;lt;` behind: every `&amp;lt;` in the input
      collapses to `&lt;`, and no `&amp;` it writes is followed by `lt;`. */
  lemma EscapeNoAmpLt(s: string)
    ensures !Occurs(Escape(s), "&amp;lt;")
  {
    EscapeIsEscapeOnce(s);
    EscapeOnceNoAmpLt(s);
  }

  lemma {:induction false} EscapeOnceNoAmpLt(s: string)
    ensures !Occurs(EscapeOnce(s), "&amp;lt;")
    decreases |s|
  {
    if s == [] {
      assert !StartsWith([], "&amp;lt;");
    } else if StartsWith(s, "&amp;lt;") {
      EscapeOnceNoAmpLt(s[8..]);
      ChunkLtNoAmpLt(EscapeOnce(s[8..]));
    } else if StartsWith(s, "&amp;") {
      var rest := s[5..];
      EscapeOnceNoAmpLt(rest);
      AmpRestNotLt(s, "&amp;", rest);
      EscapeOnceStartsWith(rest, "lt;");
      ChunkAmpNoAmpLt(EscapeOnce(rest));
    } else if StartsWith(s, "&lt;") {
      EscapeOnceNoAmpLt(s[4..]);
      ChunkLtNoAmpLt(EscapeOnce(s[4..]));
    } else if s[0] == '&' {
      var rest := s[1..];
      EscapeOnceNoAmpLt(rest);
      assert s[..1] == "&";
      AmpRestNotLt(s, "&", rest);
      EscapeOnceStartsWith(rest, "lt;");
      ChunkAmpNoAmpLt(EscapeOnce(rest));
    } else if s[0] == '<' {
      EscapeOnceNoAmpLt(s[1..]);
      ChunkLtNoAmpLt(EscapeOnce(s[1..]));
    } else {
      EscapeOnceNoAmpLt(s[1..]);
      ChunkPlainNoAmpLt(s[0], EscapeOnce(s[1..]));
    }
  }

  /** After a front `&amp;` (or a bare `&`) that does not open `&amp;lt;`
      (or `&lt;`), the rest does not start with `lt;`. */
  lemma AmpRestNotLt(s: string, front: string, rest: string)
    requires front == "&amp;" || front == "&"
    requires StartsWith(s, front) && rest == s[|front|..]
    requires front == "&amp;" ==> !StartsWith(s, "&amp;lt;")
    requires front == "&" ==> !StartsWith(s, "&lt;")
    ensures !StartsWith(rest, "lt;")
  {
    assert s == front + rest;
    StartsWithCommon(front, rest, "lt;");
    assert "&amp;" + "lt;" == "&amp;lt;" && "&" + "lt;" == "&lt;";
  }

  /** `&amp;lt;` can only start inside the tail when it does not start in the
      front. */
  lemma NoAmpLtAfter(front: string, r: string)
    requires !Occurs(r, "&amp;lt;")
    requires forall k | 0 <= k < |front| :: !StartsWith((front + r)[k..], "&amp;lt;")
    ensures !Occurs(front + r, "&amp;lt;")
  {
    forall i | 0 <= i <= |front + r|
      ensures !StartsWith((front + r)[i..], "&amp;lt;")
    {
      if i >= |front| {
        assert (front + r)[i..] == r[i - |front|..];
      }
    }
  }

  lemma ChunkPlainNoAmpLt(c: char, r: string)
    requires c != '&' && !Occurs(r, "&amp;lt;")
    ensures !Occurs([c] + r, "&amp;lt;")
  {
    MismatchAt(([c] + r)[0..], "&amp;lt;", 0);
    NoAmpLtAfter([c], r);
  }

  lemma ChunkLtNoAmpLt(r: string)
    requires !Occurs(r, "&amp;lt;")
    ensures !Occurs("&lt;" + r, "&amp;lt;")
  {
    var w := "&lt;" + r;
    forall k | 0 <= k < 4
      ensures !StartsWith(w[k..], "&amp;lt;")
    {
      if k == 0 {
        MismatchAt(w[k..], "&amp;lt;", 1);
      } else {
        assert w[k..][0] == "&lt;"[k] != '&';
        MismatchAt(w[k..], "&amp;lt;", 0);
      }
    }
    NoAmpLtAfter("&lt;", r);
  }

  lemma ChunkAmpNoAmpLt(r: string)
    requires !Occurs(r, "&amp;lt;") && !StartsWith(r, "lt;")
    ensures !Occurs("&amp;" + r, "&amp;lt;")
  {
    var w := "&amp;" + r;
    forall k | 0 <= k < 5
      ensures !StartsWith(w[k..], "&amp;lt;")
    {
      if k == 0 {
        StartsWithCommon("&amp;", r, "lt;");
        assert "&amp;" + "lt;" == "&amp;lt;";
        assert w[k..] == w;
      } else {
        assert w[k..][0] == "&amp;"[k] != '&';
        MismatchAt(w[k..], "&amp;lt;", 0);
      }
    }
    NoAmpLtAfter("&amp;", r);
  }

  /** A typed `&amp;amp;` is kept as it is: only its first `&amp;` is read as
      an entity, and the `amp;` after it is plain text. */
  lemma EscapeKeepsAmpAmp()
    ensures Escape("&amp;amp;") == "&amp;amp;"
  {
    EscapeIsEscapeOnce("&amp;amp;");
    assert "&amp;amp;" == "&amp;" + "amp;";
    assert "amp;"[0] != "lt;"[0];
    EscapeOnceAmp("amp;");
    EscapeOnceSkip("amp;", []);
    assert "amp;" + [] == "amp;";
  }

  /** Text without `&` and `<` is a fixed point of the chain. */
  lemma EscapePlain(s: string)
    requires '&' !in s && '<' !in s
    ensures Escape(s) == s
  {
    EscapeIsEscapeOnce(s);
    EscapeOnceSkip(s, []);
    assert s + [] == s;
  }

  /** The two entities the chain produces are its fixed points. */
  lemma EscapeKeepsEntities()
    ensures Escape("&amp;") == "&amp;" && Escape("&lt;") == "&lt;"
  {
    EscapeIsEscapeOnce("&amp;");
    EscapeOnceAmp([]);
    assert "&amp;" + [] == "&amp;";
    EscapeIsEscapeOnce("&lt;");
    EscapeOnceLt([]);
    assert "&lt;" + [] == "&lt;";
  }

  /** Other entities are not recognised: a typed `&gt;` has its `&` escaped,
      and a typed `&amp;lt;` collapses to `&lt;`. */
  lemma EscapeOtherEntities()
    ensures Escape("&gt;") == "&amp;gt;" && Escape("&amp;lt;") == "&lt;"
  {
    EscapeIsEscapeOnce("&gt;");
    assert "&gt;" == "&" + "gt;";
    assert "gt;"[0] != "amp;"[0] && "gt;"[0] != "lt;"[0];
    EscapeOnceBareAmp("gt;");
    EscapeOnceSkip("gt;", []);
    assert "gt;" + [] == "gt;";
    assert "&amp;" + "gt;" == "&amp;gt;";
    EscapeIsEscapeOnce("&amp;lt;");
    EscapeOnceAmpLt([]);
    assert "&amp;lt;" + [] == "&amp;lt;" && "&lt;" + [] == "&lt;";
  }

  /** Delimiter tokens pass through the chain unchanged. */
  lemma EscapeKeepsDelimiters(k: nat)
    requires k < |MdTokens|
    ensures Escape(MdTokens[k]) == MdTokens[k]
  {
    EscapePlain(MdTokens[k]);
  }

  /** No raw `<` survives the chain. */
  lemma EscapeNoRawLt(s: string)
    ensures '<' !in Escape(s)
  {
    ReplaceRemovesChar(R2(s), '<', "&lt;");
    ReplaceKeepsAbsent(R3(s), '<', "&amp;lt;", "&lt;");
  }

  // ============================================= escaping commutes with split

  ghost function EscapeOnceAll(items: seq<string>): (escaped: seq<string>)
    ensures |escaped| == |items|
  {
    seq(|items|, i requires 0 <= i < |items| => EscapeOnce(items[i]))
  }

  /** Escaping never produces an `&` from text that had neither `&` nor `<`,
      and always produces one otherwise. */
  lemma {:induction false} EscapeOnceAmpFree(s: string)
    requires '&' !in EscapeOnce(s)
    ensures '&' !in s && '<' !in s
    decreases |s|
  {
    if s != [] {
      if s[0] != '&' && s[0] != '<' {
        EscapeOncePlain(s[0], s[1..]);
        assert s == [s[0]] + s[1..];
        assert EscapeOnce(s[1..]) == EscapeOnce(s)[1..];
        EscapeOnceAmpFree(s[1..]);
      }
    }
  }

  /** One unit at the front: if escaping maps `u` to `v` both before the rest
      of the line and before the rest of its first piece, escaping commutes
      with splitting on `u + t` as it does on `t`. */
  lemma SplitUnit(u: string, v: string, t: string, d: string)
    requires Inert(d) && d[0] !in u && d[0] !in v
    requires EscapeOnce(u + t) == v + EscapeOnce(t)
    requires EscapeOnce(u + Split(t, d)[0]) == v + EscapeOnce(Split(t, d)[0])
    requires Split(EscapeOnce(t), d) == EscapeOnceAll(Split(t, d))
    ensures Split(EscapeOnce(u + t), d) == EscapeOnceAll(Split(u + t, d))
  {
    var r := Split(t, d);
    SplitPrefixFree(u, t, d);
    SplitPrefixFree(v, EscapeOnce(t), d);
    EscapeOnceAllFront(r);
    EscapeOnceAllCons(u + r[0], r[1..]);
  }

  lemma EscapeOnceAllCons(x: string, r: seq<string>)
    ensures EscapeOnceAll([x] + r) == [EscapeOnce(x)] + EscapeOnceAll(r)
  {
    var a, b := EscapeOnceAll([x] + r), [EscapeOnce(x)] + EscapeOnceAll(r);
    forall i | 0 <= i < |a| ensures a[i] == b[i] {
      if i > 0 { assert ([x] + r)[i] == r[i - 1]; }
    }
  }

  lemma EscapeOnceAllFront(r: seq<string>)
    requires |r| >= 1
    ensures EscapeOnceAll(r) == [EscapeOnce(r[0])] + EscapeOnceAll(r[1..])
  {
    assert r == [r[0]] + r[1..];
    EscapeOnceAllCons(r[0], r[1..]);
  }

  /** A delimiter's first character is not one of the entity characters. */
  lemma InertHead(d: string)
    requires Inert(d)
    ensures d[0] !in "&amp;lt;" && d[0] !in "&lt;" && d[0] !in "&amp;"
    ensures d[0] !in "&" && d[0] !in "<"
  {
    assert d[0] in d;
  }

  /** Splitting the escaped line on a delimiter gives the escaped pieces. */
  lemma {:induction false} SplitEscapeOnce(s: string, d: string)
    requires Inert(d)
    ensures Split(EscapeOnce(s), d) == EscapeOnceAll(Split(s, d))
    decreases |s|
  {
    if s == [] {
      assert EscapeOnceAll([[]]) == [[]];
    } else if StartsWith(s, d) {
      SplitEscapeOnce(s[|d|..], d);
      SplitEscapeLeading(s, d);
    } else if StartsWith(s, "&amp;lt;") {
      SplitEscapeOnce(s[8..], d);
      SplitEscapeAmpLt(s, d);
    } else if StartsWith(s, "&amp;") {
      SplitEscapeOnce(s[5..], d);
      SplitEscapeAmp(s, d);
    } else if StartsWith(s, "&lt;") {
      SplitEscapeOnce(s[4..], d);
      SplitEscapeLt(s, d);
    } else if s[0] == '&' {
      SplitEscapeOnce(s[1..], d);
      SplitEscapeBareAmp(s, d);
    } else if s[0] == '<' {
      SplitEscapeOnce(s[1..], d);
      SplitEscapeAngle(s, d);
    } else {
      SplitEscapeOnce(s[1..], d);
      SplitEscapePlain(s, d);
    }
  }

  lemma SplitEscapeLeading(s: string, d: string)
    requires Inert(d) && StartsWith(s, d)
    requires Split(EscapeOnce(s[|d|..]), d) == EscapeOnceAll(Split(s[|d|..], d))
    ensures Split(EscapeOnce(s), d) == EscapeOnceAll(Split(s, d))
  {
    var y := s[|d|..];
    assert s == d + y;
    EscapeOnceSkip(d, y);
    SplitLeading(EscapeOnce(y), d);
    SplitLeading(y, d);
    EscapeOnceAllCons([], Split(y, d));
  }

  lemma SplitEscapeAmpLt(s: string, d: string)
    requires Inert(d) && StartsWith(s, "&amp;lt;")
    requires Split(EscapeOnce(s[8..]), d) == EscapeOnceAll(Split(s[8..], d))
    ensures Split(EscapeOnce(s), d) == EscapeOnceAll(Split(s, d))
  {
    var t := s[8..];
    assert s == "&amp;lt;" + t;
    EscapeOnceAmpLt(t);
    EscapeOnceAmpLt(Split(t, d)[0]);
    InertHead(d);
    SplitUnit("&amp;lt;", "&lt;", t, d);
  }

  lemma SplitEscapeAmp(s: string, d: string)
    requires Inert(d) && StartsWith(s, "&amp;") && !StartsWith(s, "&amp;lt;")
    requires Split(EscapeOnce(s[5..]), d) == EscapeOnceAll(Split(s[5..], d))
    ensures Split(EscapeOnce(s), d) == EscapeOnceAll(Split(s, d))
  {
    var t := s[5..];
    assert s == "&amp;" + t;
    AmpNotAmpLt'(s, t);
    SplitFirstIsPrefix(t, d);
    NotStartsWithPrefix(t, Split(t, d)[0], "lt;");
    EscapeOnceAmp(t);
    EscapeOnceAmp(Split(t, d)[0]);
    InertHead(d);
    SplitUnit("&amp;", "&amp;", t, d);
  }

  lemma SplitEscapeLt(s: string, d: string)
    requires Inert(d) && StartsWith(s, "&lt;")
    requires Split(EscapeOnce(s[4..]), d) == EscapeOnceAll(Split(s[4..], d))
    ensures Split(EscapeOnce(s), d) == EscapeOnceAll(Split(s, d))
  {
    var t := s[4..];
    assert s == "&lt;" + t;
    EscapeOnceLt(t);
    EscapeOnceLt(Split(t, d)[0]);
    InertHead(d);
    SplitUnit("&lt;", "&lt;", t, d);
  }

  lemma SplitEscapeBareAmp(s: string, d: string)
    requires Inert(d) && s != [] && s[0] == '&' && !StartsWith(s, "&amp;") && !StartsWith(s, "&lt;")
    requires Split(EscapeOnce(s[1..]), d) == EscapeOnceAll(Split(s[1..], d))
    ensures Split(EscapeOnce(s), d) == EscapeOnceAll(Split(s, d))
  {
    var t := s[1..];
    assert s == "&" + t;
    BareAmpLookahead(s, t);
    SplitFirstIsPrefix(t, d);
    NotStartsWithPrefix(t, Split(t, d)[0], "lt;");
    NotStartsWithPrefix(t, Split(t, d)[0], "amp;");
    EscapeOnceBareAmp(t);
    EscapeOnceBareAmp(Split(t, d)[0]);
    InertHead(d);
    SplitUnit("&", "&amp;", t, d);
  }

  lemma SplitEscapeAngle(s: string, d: string)
    requires Inert(d) && s != [] && s[0] == '<'
    requires Split(EscapeOnce(s[1..]), d) == EscapeOnceAll(Split(s[1..], d))
    ensures Split(EscapeOnce(s), d) == EscapeOnceAll(Split(s, d))
  {
    var t := s[1..];
    assert s == "<" + t;
    EscapeOnceAngle(t);
    EscapeOnceAngle(Split(t, d)[0]);
    InertHead(d);
    SplitUnit("<", "&lt;", t, d);
  }

  lemma SplitEscapePlain(s: string, d: string)
    requires Inert(d) && s != [] && s[0] != '&' && s[0] != '<' && !StartsWith(s, d)
    requires Split(EscapeOnce(s[1..]), d) == EscapeOnceAll(Split(s[1..], d))
    ensures Split(EscapeOnce(s), d) == EscapeOnceAll(Split(s, d))
  {
    var c, t := s[0], s[1..];
    assert s == [c] + t;
    EscapeOncePlain(c, t);
    EscapeOncePlain(c, Split(t, d)[0]);
    assert forall ch | ch in d :: ch != '&' && ch != '<';
    EscapeOnceStartsWith(s, d);
    SplitNoMatch(c, t, d);
    SplitNoMatch(c, EscapeOnce(t), d);
    var r := Split(t, d);
    EscapeOnceAllFront(r);
    EscapeOnceAllCons([c] + r[0], r[1..]);
  }

  lemma AmpNotAmpLt'(s: string, t: string)
    requires s == "&amp;" + t && !StartsWith(s, "&amp;lt;")
    ensures !StartsWith(t, "lt;")
  {
    assert "&amp;lt;" == "&amp;" + "lt;";
    StartsWithCommon("&amp;", t, "lt;");
  }

  lemma BareAmpLookahead(s: string, t: string)
    requires s == "&" + t && !StartsWith(s, "&amp;") && !StartsWith(s, "&lt;")
    ensures !StartsWith(t, "amp;") && !StartsWith(t, "lt;")
  {
    assert "&amp;" == "&" + "amp;" && "&lt;" == "&" + "lt;";
    StartsWithCommon("&", t, "amp;");
    StartsWithCommon("&", t, "lt;");
  }

  lemma NotStartsWithPrefix(t: string, r: string, w: string)
    requires StartsWith(t, r) && !StartsWith(t, w)
    ensures !StartsWith(r, w)
  {
    if StartsWith(r, w) {
      StartsWithTrans(t, r, w);
    }
  }

  // ===================================================== the seven passes

  lemma {:induction false} WeaveEscape(pieces: seq<string>, item: string)
    requires |pieces| >= 1 && Escape(item) == item
    ensures EscapeAll(Weave(pieces, item)) == Weave(EscapeAll(pieces), item)
  {
    if |pieces| > 1 {
      var rest := Weave(pieces[1..], item);
      WeaveEscape(pieces[1..], item);
      EscapeAllPair(pieces[0], item, rest);
      EscapeAllFront(pieces);
    }
  }

  lemma EscapeAllPair(x: string, y: string, r: seq<string>)
    ensures EscapeAll([x, y] + r) == [Escape(x), Escape(y)] + EscapeAll(r)
  {
    var a, b := EscapeAll([x, y] + r), [Escape(x), Escape(y)] + EscapeAll(r);
    forall i | 0 <= i < |a| ensures a[i] == b[i] {
      if i > 1 { assert ([x, y] + r)[i] == r[i - 2]; }
    }
  }

  lemma EscapeAllFront(r: seq<string>)
    requires |r| >= 1
    ensures EscapeAll(r) == [Escape(r[0])] + EscapeAll(r[1..])
  {
    var a, b := EscapeAll(r), [Escape(r[0])] + EscapeAll(r[1..]);
    forall i | 0 <= i < |a| ensures a[i] == b[i] {
      if i > 0 { assert r[1..][i - 1] == r[i]; }
    }
  }

  /** Escaping the pieces of `split_around` is splitting the escaped line. */
  lemma SplitAroundEscape(line: string, d: string)
    requires Inert(d)
    ensures EscapeAll(SplitAround(line, d)) == SplitAround(Escape(line), d)
  {
    EscapeIsEscapeOnce(line);
    if line in MdTokens {
      var k :| 0 <= k < |MdTokens| && MdTokens[k] == line;
      EscapeKeepsDelimiters(k);
    } else {
      if Escape(line) in MdTokens {
        var k :| 0 <= k < |MdTokens| && MdTokens[k] == Escape(line);
        assert '&' !in MdTokens[k];
        EscapeOnceAmpFree(line);
        EscapePlain(line);
      }
      assert d[0] in d;
      EscapePlain(d);
      SplitEscapeOnce(line, d);
      var pieces := Split(line, d);
      assert EscapeAll(pieces) == EscapeOnceAll(pieces) by {
        forall i | 0 <= i < |pieces| ensures EscapeAll(pieces)[i] == EscapeOnceAll(pieces)[i] {
          EscapeIsEscapeOnce(pieces[i]);
        }
      }
      WeaveEscape(pieces, d);
    }
  }

  /** Every item is a fixed point of the escape chain. */
  ghost predicate AllEscaped(items: seq<string>) {
    forall i | 0 <= i < |items| :: Escape(items[i]) == items[i]
  }

  /** On already-escaped lines a pass only splits: escaping does nothing more,
      and what comes out is still escaped. */
  lemma {:induction false} PassOnEscaped(lines: seq<string>, d: string)
    requires Inert(d) && AllEscaped(lines)
    ensures Pass(lines, d) == SplitPass(lines, d)
    ensures AllEscaped(SplitPass(lines, d))
  {
    if lines != [] {
      PassOnEscaped(lines[1..], d);
      var parts := SplitAround(lines[0], d);
      SplitAroundEscape(lines[0], d);
      assert EscapeAll(parts) == parts;
      var out := SplitPass(lines, d);
      assert out == parts + SplitPass(lines[1..], d);
      forall i | 0 <= i < |out|
        ensures Escape(out[i]) == out[i]
      {
        if i < |parts| {
          assert EscapeAll(parts)[i] == Escape(parts[i]);
        } else {
          assert out[i] == SplitPass(lines[1..], d)[i - |parts|];
        }
      }
    }
  }

  lemma {:induction false} PassesOnEscaped(lines: seq<string>, k: nat)
    requires k <= |MdTokens| && AllEscaped(lines)
    ensures PassesFrom(lines, k) == SplitPassesFrom(lines, k)
    ensures AllEscaped(SplitPassesFrom(lines, k))
    decreases |MdTokens| - k
  {
    if k < |MdTokens| {
      MdTokensInert(k);
      PassOnEscaped(lines, MdTokens[k]);
      PassesOnEscaped(SplitPass(lines, MdTokens[k]), k + 1);
    }
  }

  /** However many passes run, each `&` and `<` of the message is escaped
      once: the seven passes equal escaping the text a single time and then
      only splitting it. */
  lemma EscapedExactlyOnce(text: string)
    ensures PassesFrom([text], 0) == SplitPassesFrom([Escape(text)], 0)
    ensures AllEscaped(PassesFrom([text], 0))
  {
    MdTokensInert(0);
    SplitAroundEscape(text, "**");
    assert Pass([text], "**") == SplitAround(Escape(text), "**");
    assert SplitPass([Escape(text)], "**") == SplitAround(Escape(text), "**");
    EscapeIdempotent(text);
    PassOnEscaped([Escape(text)], "**");
    PassesOnEscaped(SplitPass([Escape(text)], "**"), 1);
  }

  // ------------------------------------------------------- text is not lost

  lemma {:induction false} SplitPassConcat(lines: seq<string>, d: string)
    requires d != []
    ensures Concat(SplitPass(lines, d)) == Concat(lines)
  {
    if lines != [] {
      SplitPassConcat(lines[1..], d);
      SplitAroundConcat(lines[0], d);
      ConcatAppend(SplitAround(lines[0], d), SplitPass(lines[1..], d));
    }
  }

  lemma {:induction false} SplitPassesConcat(lines: seq<string>, k: nat)
    requires k <= |MdTokens|
    ensures Concat(SplitPassesFrom(lines, k)) == Concat(lines)
    decreases |MdTokens| - k
  {
    if k < |MdTokens| {
      SplitPassConcat(lines, MdTokens[k]);
      SplitPassesConcat(SplitPass(lines, MdTokens[k]), k + 1);
    }
  }

  lemma {:induction false} NonEmptyConcat(lines: seq<string>)
    ensures Concat(NonEmpty(lines)) == Concat(lines)
  {
    if lines != [] {
      NonEmptyConcat(lines[1..]);
      if lines[0] != [] {
        ConcatAppend([lines[0]], NonEmpty(lines[1..]));
        assert Concat([lines[0]]) == lines[0] + Concat([]);
      }
    }
  }

  lemma {:induction false} NonEmptyKeepsAll(lines: seq<string>, p: string -> bool)
    requires forall i | 0 <= i < |lines| :: p(lines[i])
    ensures forall t | t in NonEmpty(lines) :: p(t)
  {
    if lines != [] {
      NonEmptyKeepsAll(lines[1..], p);
    }
  }

  /** The tokens, glued together, are the escaped message: no text is lost or
      duplicated by the passes or the filter. */
  lemma TokensConcat(text: string)
    ensures Concat(SplitIntoWordsAndTokens(text)) == Escape(text)
  {
    EscapedExactlyOnce(text);
    SplitPassesConcat([Escape(text)], 0);
    NonEmptyConcat(PassesFrom([text], 0));
    assert Concat([Escape(text)]) == Escape(text) + Concat([]);
  }

  /** No token holds `&amp;lt;`: the escaped message has none, and a token
      holding one would give the message one. */
  lemma TokensNoAmpLt(text: string)
    ensures forall t | t in SplitIntoWordsAndTokens(text) :: !Occurs(t, "&amp;lt;")
  {
    var tokens := SplitIntoWordsAndTokens(text);
    TokensConcat(text);
    EscapeNoAmpLt(text);
    forall t | t in tokens
      ensures !Occurs(t, "&amp;lt;")
    {
      var i :| 0 <= i < |tokens| && tokens[i] == t;
      OccursInConcat(tokens, i, "&amp;lt;");
    }
  }

  /** Every token is escaped exactly once: a fixed point of the chain, so it
      holds no raw `<`. */
  lemma TokensEscaped(text: string)
    ensures forall t | t in SplitIntoWordsAndTokens(text) :: Escape(t) == t && '<' !in t
  {
    EscapedExactlyOnce(text);
    var lines := PassesFrom([text], 0);
    forall i | 0 <= i < |lines|
      ensures Escape(lines[i]) == lines[i] && '<' !in lines[i]
    {
      EscapeNoRawLt(lines[i]);
    }
    NonEmptyKeepsAll(lines, t => Escape(t) == t && '<' !in t);
  }

  // ------------------------------------------------------------ token shape

  /** After the passes for `MdTokens[..k]`, an item is either a delimiter or
      holds none of those delimiters. */
  ghost predicate Shaped(item: string, k: nat)
    requires k <= |MdTokens|
  {
    item in MdTokens || forall j | 0 <= j < k :: !Occurs(item, MdTokens[j])
  }

  lemma {:induction false} WeaveElems(pieces: seq<string>, item: string)
    requires |pieces| >= 1
    ensures forall x | x in Weave(pieces, item) :: x == item || x in pieces
  {
    if |pieces| > 1 {
      WeaveElems(pieces[1..], item);
    }
  }

  lemma SplitAroundShaped(line: string, k: nat)
    requires k < |MdTokens| && Shaped(line, k)
    ensures forall x | x in SplitAround(line, MdTokens[k]) :: Shaped(x, k + 1)
  {
    var d := MdTokens[k];
    if line !in MdTokens {
      var pieces := Split(line, d);
      WeaveElems(pieces, d);
      forall x | x in SplitAround(line, d)
        ensures Shaped(x, k + 1)
      {
        if x != d {
          var i :| 0 <= i < |pieces| && pieces[i] == x;
          SplitPiecesFree(line, d, i);
          forall j | 0 <= j < k
            ensures !Occurs(x, MdTokens[j])
          {
            if Occurs(x, MdTokens[j]) {
              SplitPieceOccurs(line, d, i, MdTokens[j]);
            }
          }
        }
      }
    }
  }

  lemma {:induction false} SplitPassShaped(lines: seq<string>, k: nat)
    requires k < |MdTokens| && forall x | x in lines :: Shaped(x, k)
    ensures forall x | x in SplitPass(lines, MdTokens[k]) :: Shaped(x, k + 1)
  {
    if lines != [] {
      SplitAroundShaped(lines[0], k);
      SplitPassShaped(lines[1..], k);
    }
  }

  lemma {:induction false} SplitPassesShaped(lines: seq<string>, k: nat)
    requires k <= |MdTokens| && forall x | x in lines :: Shaped(x, k)
    ensures forall x | x in SplitPassesFrom(lines, k) :: Shaped(x, |MdTokens|)
    decreases |MdTokens| - k
  {
    if k < |MdTokens| {
      SplitPassShaped(lines, k);
      SplitPassesShaped(SplitPass(lines, MdTokens[k]), k + 1);
    }
  }

  lemma OccursChar(s: string, c: char)
    requires c in s
    ensures Occurs(s, [c])
  {
    var i :| 0 <= i < |s| && s[i] == c;
    assert s[i..][..1] == [c];
  }

  /** Every token is non-empty and is either exactly one delimiter or holds
      no asterisk, underscore, space, newline or `~~`: every space and
      newline is a token of its own. */
  lemma TokenShape(text: string)
    ensures forall t | t in SplitIntoWordsAndTokens(text) ::
      t != [] && (t in MdTokens || ('*' !in t && '_' !in t && ' ' !in t && '\n' !in t && !Occurs(t, "~~")))
  {
    EscapedExactlyOnce(text);
    SplitPassesShaped([Escape(text)], 0);
    forall t | t in SplitIntoWordsAndTokens(text)
      ensures t != [] && (t in MdTokens || ('*' !in t && '_' !in t && ' ' !in t && '\n' !in t && !Occurs(t, "~~")))
    {
      assert t in PassesFrom([text], 0);
      assert Shaped(t, |MdTokens|);
      if t !in MdTokens {
        assert !Occurs(t, MdTokens[1]) && !Occurs(t, MdTokens[3]) && !Occurs(t, MdTokens[5]) && !Occurs(t, MdTokens[6]);
        if '*' in t { OccursChar(t, '*'); }
        if '_' in t { OccursChar(t, '_'); }
        if ' ' in t { OccursChar(t, ' '); }
        if '\n' in t { OccursChar(t, '\n'); }
        assert !Occurs(t, MdTokens[4]);
      }
    }
  }

  // ---------------------------------------------------- bold markers survive

  /** How many items equal `m`. */
  function CountItem(items: seq<string>, m: string): nat {
    if items == [] then 0 else (if items[0] == m then 1 else 0) + CountItem(items[1..], m)
  }

  lemma {:induction false} CountItemAppend(a: seq<string>, b: seq<string>, m: string)
    ensures CountItem(a + b, m) == CountItem(a, m) + CountItem(b, m)
  {
    if a != [] {
      assert (a + b)[1..] == a[1..] + b;
      CountItemAppend(a[1..], b, m);
    } else {
      assert a + b == b;
    }
  }

  lemma {:induction false} CountItemAbsent(items: seq<string>, m: string)
    requires m !in items
    ensures CountItem(items, m) == 0
  {
    if items != [] {
      CountItemAbsent(items[1..], m);
    }
  }

  lemma {:induction false} WeaveCountItem(pieces: seq<string>, item: string)
    requires |pieces| >= 1 && item !in pieces
    ensures CountItem(Weave(pieces, item), item) == |pieces| - 1
  {
    if |pieces| > 1 {
      WeaveCountItem(pieces[1..], item);
      var rest := Weave(pieces[1..], item);
      CountItemAppend([pieces[0], item], rest, item);
    }
  }

  /** After the pass for the marker `MdTokens[j]`, a later pass neither
      creates nor destroys a token equal to that marker. */
  lemma SplitAroundKeepsMarker(line: string, j: nat, k: nat)
    requires j < k < |MdTokens| && Shaped(line, j + 1)
    ensures CountItem(SplitAround(line, MdTokens[k]), MdTokens[j]) == if line == MdTokens[j] then 1 else 0
  {
    var d, m := MdTokens[k], MdTokens[j];
    if line !in MdTokens {
      var pieces := Split(line, d);
      WeaveElems(pieces, d);
      MdTokensDistinct(j, k);
      assert !Occurs(line, m);
      forall i | 0 <= i < |pieces|
        ensures pieces[i] != m
      {
        SplitPieceAbsent(line, d, i, m);
        OccursSelf(m);
      }
      CountItemAbsent(SplitAround(line, d), m);
    }
  }

  lemma MdTokensDistinct(j: nat, k: nat)
    requires j < k < |MdTokens|
    ensures MdTokens[j] != MdTokens[k]
  {
    assert MdTokens[j][0] != MdTokens[k][0] || |MdTokens[j]| != |MdTokens[k]|;
  }

  lemma OccursSelf(p: string)
    ensures Occurs(p, p)
  {
    assert StartsWith(p[0..], p);
  }

  lemma SplitPieceAbsent(s: string, d: string, k: nat, p: string)
    requires d != [] && k < |Split(s, d)| && !Occurs(s, p)
    ensures !Occurs(Split(s, d)[k], p)
  {
    if Occurs(Split(s, d)[k], p) {
      SplitPieceOccurs(s, d, k, p);
    }
  }

  lemma {:induction false} SplitPassKeepsMarker(lines: seq<string>, j: nat, k: nat)
    requires j < k < |MdTokens| && forall x | x in lines :: Shaped(x, j + 1)
    ensures CountItem(SplitPass(lines, MdTokens[k]), MdTokens[j]) == CountItem(lines, MdTokens[j])
  {
    if lines != [] {
      assert lines[0] in lines;
      SplitAroundKeepsMarker(lines[0], j, k);
      forall x | x in lines[1..]
        ensures Shaped(x, j + 1)
      {
        assert x in lines;
      }
      SplitPassKeepsMarker(lines[1..], j, k);
      CountItemAppend(SplitAround(lines[0], MdTokens[k]), SplitPass(lines[1..], MdTokens[k]), MdTokens[j]);
    }
  }

  lemma ShapedWeaker(x: string, a: nat, b: nat)
    requires a <= b <= |MdTokens| && Shaped(x, b)
    ensures Shaped(x, a)
  {
  }

  lemma AllShapedWeaker(lines: seq<string>, a: nat, b: nat)
    requires a <= b <= |MdTokens| && forall x | x in lines :: Shaped(x, b)
    ensures forall x | x in lines :: Shaped(x, a)
  {
    forall x | x in lines
      ensures Shaped(x, a)
    {
      ShapedWeaker(x, a, b);
    }
  }

  lemma {:induction false} SplitPassesKeepMarker(lines: seq<string>, j: nat, k: nat)
    requires j < k <= |MdTokens| && forall x | x in lines :: Shaped(x, k)
    ensures CountItem(SplitPassesFrom(lines, k), MdTokens[j]) == CountItem(lines, MdTokens[j])
    decreases |MdTokens| - k
  {
    if k < |MdTokens| {
      var next := SplitPass(lines, MdTokens[k]);
      assert SplitPassesFrom(lines, k) == SplitPassesFrom(next, k + 1);
      AllShapedWeaker(lines, j + 1, k);
      SplitPassKeepsMarker(lines, j, k);
      SplitPassShaped(lines, k);
      SplitPassesKeepMarker(next, j, k + 1);
    }
  }

  lemma {:induction false} NonEmptyCountItem(lines: seq<string>, m: string)
    requires m != []
    ensures CountItem(NonEmpty(lines), m) == CountItem(lines, m)
  {
    if lines != [] {
      NonEmptyCountItem(lines[1..], m);
    }
  }

  /** The two-character markers whose passes run before the passes for
      their single-character halves: `**` (before `*`) and `__` (before
      `_`). */
  predicate IsMarker(j: nat) {
    j == 0 || j == 2
  }

  /** A marker occurs in a delimiter only as that delimiter itself. */
  lemma DelimiterMarkerCount(k: nat, j: nat)
    requires k < |MdTokens| && IsMarker(j)
    ensures Count(MdTokens[k], MdTokens[j]) == if MdTokens[k] == MdTokens[j] then 1 else 0
  {
    var d, m := MdTokens[k], MdTokens[j];
    if k == 0 || k == 2 || k == 4 {
      assert d[2..] == [] && d[1..][1..] == [];
    } else {
      assert d[1..] == [];
    }
  }

  /** The marker's own pass turns every non-overlapping occurrence of the
      marker into a token. */
  lemma MarkerPassLine(e: string, j: nat)
    requires IsMarker(j)
    ensures CountItem(SplitAround(e, MdTokens[j]), MdTokens[j]) == Count(e, MdTokens[j])
  {
    var m := MdTokens[j];
    if e in MdTokens {
      var k :| 0 <= k < |MdTokens| && MdTokens[k] == e;
      DelimiterMarkerCount(k, j);
    } else {
      var pieces := Split(e, m);
      forall i | 0 <= i < |pieces|
        ensures pieces[i] != m
      {
        SplitPiecesFree(e, m, i);
        OccursSelf(m);
      }
      WeaveCountItem(pieces, m);
      SplitCount(e, m);
    }
  }

  lemma {:induction false} MarkerPass(lines: seq<string>, j: nat)
    requires IsMarker(j)
    ensures CountItem(SplitPass(lines, MdTokens[j]), MdTokens[j]) == SumCount(lines, MdTokens[j])
  {
    var m := MdTokens[j];
    if lines != [] {
      MarkerPassLine(lines[0], j);
      MarkerPass(lines[1..], j);
      CountItemAppend(SplitAround(lines[0], m), SplitPass(lines[1..], m), m);
    }
  }

  // ------------------------------------------- occurrences across the pieces

  /** The occurrences of `p` in all the items, each counted as `count` does. */
  function SumCount(items: seq<string>, p: string): nat
    requires p != []
  {
    if items == [] then 0 else Count(items[0], p) + SumCount(items[1..], p)
  }

  lemma {:induction false} SumCountAppend(a: seq<string>, b: seq<string>, p: string)
    requires p != []
    ensures SumCount(a + b, p) == SumCount(a, p) + SumCount(b, p)
  {
    if a != [] {
      assert (a + b)[0] == a[0] && (a + b)[1..] == a[1..] + b;
      SumCountAppend(a[1..], b, p);
    } else {
      assert a + b == b;
    }
  }

  lemma SumCountSingle(x: string, p: string)
    requires p != []
    ensures SumCount([x], p) == Count(x, p)
  {
    assert [x][1..] == [];
  }

  /** A divider that cannot hold the start of `p` adds no occurrence. */
  lemma {:induction false} SumCountWeave(pieces: seq<string>, d: string, p: string)
    requires |pieces| >= 1 && p != [] && p[0] !in d
    ensures SumCount(Weave(pieces, d), p) == SumCount(pieces, p)
  {
    if |pieces| > 1 {
      SumCountWeave(pieces[1..], d, p);
      var rest := Weave(pieces[1..], d);
      assert Weave(pieces, d) == [pieces[0], d] + rest;
      SumCountAppend([pieces[0], d], rest, p);
      CountSkip(d, [], p);
      assert d + [] == d;
      assert [pieces[0], d][1..] == [d] && [d][1..] == [];
    }
  }

  /** Joining with a divider that shares no character with the start or the
      first character of `p` neither creates nor merges occurrences. */
  lemma {:induction false} JoinCount(pieces: seq<string>, d: string, p: string)
    requires |pieces| >= 1 && d != [] && p != [] && p[0] !in d && d[0] !in p
    ensures Count(Join(pieces, d), p) == SumCount(pieces, p)
  {
    if |pieces| > 1 {
      var rest := Join(pieces[1..], d);
      JoinCount(pieces[1..], d, p);
      assert Join(pieces, d) == pieces[0] + (d + rest);
      CountAppend(pieces[0], d + rest, p);
      CountSkip(d, rest, p);
    } else {
      assert pieces[1..] == [];
    }
  }

  /** `split_around` with such a divider keeps every occurrence of `p`. */
  lemma SplitAroundSumCount(line: string, d: string, p: string)
    requires d != [] && p != [] && p[0] !in d && d[0] !in p
    ensures SumCount(SplitAround(line, d), p) == Count(line, p)
  {
    if line in MdTokens {
      SumCountSingle(line, p);
    } else {
      var pieces := Split(line, d);
      SumCountWeave(pieces, d, p);
      JoinCount(pieces, d, p);
      SplitJoin(line, d);
    }
  }

  lemma {:induction false} SplitPassSumCount(lines: seq<string>, d: string, p: string)
    requires d != [] && p != [] && p[0] !in d && d[0] !in p
    ensures SumCount(SplitPass(lines, d), p) == SumCount(lines, p)
  {
    if lines != [] {
      SplitAroundSumCount(lines[0], d, p);
      SplitPassSumCount(lines[1..], d, p);
      SumCountAppend(SplitAround(lines[0], d), SplitPass(lines[1..], d), p);
    }
  }

  // ---------------------------------------------- markers are never split

  /** The bold pass runs first and its markers are never split again: there
      are exactly as many `**` tokens as non-overlapping `**` in the escaped
      message, so `**` is never read as two `*`. */
  lemma BoldTokens(text: string)
    ensures CountItem(SplitIntoWordsAndTokens(text), "**") == Count(Escape(text), "**")
  {
    var e := Escape(text);
    EscapedExactlyOnce(text);
    NonEmptyCountItem(PassesFrom([text], 0), "**");
    var first := SplitPass([e], MdTokens[0]);
    assert SplitPassesFrom([e], 0) == SplitPassesFrom(first, 1);
    SplitPassShaped([e], 0);
    SplitPassesKeepMarker(first, 0, 1);
    MarkerPass([e], 0);
    SumCountSingle(e, "**");
  }

  /** Likewise for underline: the `__` pass runs before the `_` pass, and
      the earlier `**` and `*` passes cannot cut a `__` apart, so there are
      exactly as many `__` tokens as non-overlapping `__` in the escaped
      message. */
  lemma UnderlineTokens(text: string)
    ensures CountItem(SplitIntoWordsAndTokens(text), "__") == Count(Escape(text), "__")
  {
    var e := Escape(text);
    EscapedExactlyOnce(text);
    NonEmptyCountItem(PassesFrom([text], 0), "__");
    var one := SplitPass([e], MdTokens[0]);
    var two := SplitPass(one, MdTokens[1]);
    var three := SplitPass(two, MdTokens[2]);
    assert SplitPassesFrom([e], 0) == SplitPassesFrom(three, 3);
    SplitPassShaped([e], 0);
    SplitPassShaped(one, 1);
    SplitPassShaped(two, 2);
    SplitPassesKeepMarker(three, 2, 3);
    MarkerPass(two, 2);
    SplitPassSumCount(one, "*", "__");
    SplitPassSumCount([e], "**", "__");
    SumCountSingle(e, "__");
  }

  // ------------------------------------------------------------- an example

  /** A string free of the divider's first character is one piece. */
  lemma SplitAbsent(s: string, d: string)
    requires d != [] && d[0] !in s
    ensures Split(s, d) == [s]
  {
    SplitPrefixFree(s, [], d);
    assert s + [] == s;
  }

  /** `split_around` leaves a delimiter, or a line without the divider's
      first character, as it is. */
  lemma SplitAroundKeeps(line: string, d: string)
    requires d != [] && (line in MdTokens || d[0] !in line)
    ensures SplitAround(line, d) == [line]
  {
    if line !in MdTokens {
      SplitAbsent(line, d);
    }
  }

  lemma {:induction false} SplitPassKeeps(lines: seq<string>, d: string)
    requires d != [] && forall x | x in lines :: x in MdTokens || d[0] !in x
    ensures SplitPass(lines, d) == lines
  {
    if lines != [] {
      SplitAroundKeeps(lines[0], d);
      SplitPassKeeps(lines[1..], d);
      assert [lines[0]] + lines[1..] == lines;
    }
  }

  lemma SplitPassCons(x: string, r: seq<string>, d: string)
    requires d != []
    ensures SplitPass([x] + r, d) == SplitAround(x, d) + SplitPass(r, d)
  {
    assert ([x] + r)[0] == x && ([x] + r)[1..] == r;
  }

  /** A word with no delimiter character and nothing to escape. */
  predicate PlainWord(w: string) {
    forall c | c in w :: c !in "*_~ \n&<"
  }

  /** A message `**w** t` (with the newline the renderer appends) becomes
      the bold markers around `w`, the space, `t` and the newline: the empty
      pieces around the markers are dropped. */
  lemma BoldWordTokens(w: string, t: string)
    requires w != [] && t != [] && PlainWord(w) && PlainWord(t)
    ensures SplitIntoWordsAndTokens("**" + w + "**" + (" " + t + "\n")) == ["**", w, "**", " ", t, "\n"]
  {
    var text := "**" + w + "**" + (" " + t + "\n");
    PlainMessage(w, t);
    EscapePlain(text);
    EscapedExactlyOnce(text);
    var l7 := ExamplePasses(w, t);
    assert PassesFrom([text], 0) == l7;
    ExampleNonEmpty(w, t);
  }

  lemma PlainMessage(w: string, t: string)
    requires PlainWord(w) && PlainWord(t)
    ensures var rest := " " + t + "\n";
      '&' !in "**" + w + "**" + rest && '<' !in "**" + w + "**" + rest &&
      '*' !in rest && '_' !in rest && '~' !in rest
  {
    var rest := " " + t + "\n";
    var text := "**" + w + "**" + rest;
    assert forall c | c in text :: c in "**" || c in w || c in rest;
    assert forall c | c in rest :: c in " " || c in t || c in "\n";
  }

  lemma ExamplePasses(w: string, t: string) returns (l7: seq<string>)
    requires w != [] && t != [] && PlainWord(w) && PlainWord(t)
    ensures SplitPassesFrom(["**" + w + "**" + (" " + t + "\n")], 0) == l7
    ensures l7 == ["", "**", w, "**", "", " ", t, "\n", ""]
  {
    var rest := " " + t + "\n";
    var text := "**" + w + "**" + rest;
    PlainMessage(w, t);
    assert '*' !in w && '_' !in w && '~' !in w && ' ' !in w && '\n' !in w;
    assert ' ' !in t && '\n' !in t;
    var l1 := BoldPass(w, rest);
    SplitPassKeeps(l1, "*");
    SplitPassKeeps(l1, "__");
    SplitPassKeeps(l1, "_");
    SplitPassKeeps(l1, "~~");
    var l6 := SpacePass(w, t);
    l7 := NewlinePass(w, t);
    calc {
      SplitPassesFrom([text], 0);
      SplitPassesFrom(l1, 1);
      SplitPassesFrom(l1, 2);
      SplitPassesFrom(l1, 3);
      SplitPassesFrom(l1, 4);
      SplitPassesFrom(l1, 5);
      SplitPassesFrom(l6, 6);
      SplitPassesFrom(l7, 7);
    }
  }

  lemma ExampleNonEmpty(w: string, t: string)
    requires w != [] && t != []
    ensures NonEmpty(["", "**", w, "**", "", " ", t, "\n", ""]) == ["**", w, "**", " ", t, "\n"]
  {
    var l: seq<string> := ["", "**", w, "**", "", " ", t, "\n", ""];
    assert NonEmpty(l[8..]) == [] by { assert l[8..] == [""] && l[8..][1..] == []; }
    assert l[7..][1..] == l[8..];
    assert l[6..][1..] == l[7..];
    assert l[5..][1..] == l[6..];
    assert l[4..][1..] == l[5..];
    assert l[3..][1..] == l[4..];
    assert l[2..][1..] == l[3..];
    assert l[1..][1..] == l[2..];
    assert l[1..] == l[1..];
    assert NonEmpty(l[7..]) == ["\n"];
    assert NonEmpty(l[6..]) == [t, "\n"];
    assert NonEmpty(l[5..]) == [" ", t, "\n"];
    assert NonEmpty(l[4..]) == [" ", t, "\n"];
    assert NonEmpty(l[3..]) == ["**", " ", t, "\n"];
    assert NonEmpty(l[2..]) == [w, "**", " ", t, "\n"];
    assert NonEmpty(l[1..]) == ["**", w, "**", " ", t, "\n"];
  }

  lemma BoldPass(w: string, rest: string) returns (l1: seq<string>)
    requires '*' !in w && '*' !in rest
    ensures SplitPass(["**" + w + "**" + rest], "**") == l1
    ensures l1 == ["", "**", w, "**", rest]
  {
    var text := "**" + w + "**" + rest;
    BoldSplit(w, rest);
    BoldWeave(w, rest);
    l1 := ["", "**", w, "**", rest];
    assert text !in MdTokens by {
      assert |text| >= 4;
    }
    assert [text][0] == text && [text][1..] == [];
  }

  /** `**w**rest` splits at `**` into an empty front, `w` and `rest`. */
  lemma BoldSplit(w: string, rest: string)
    requires '*' !in w && '*' !in rest
    ensures Split("**" + w + "**" + rest, "**") == [[], w, rest]
  {
    var text := "**" + w + "**" + rest;
    var a := "**" + rest;
    var b := w + a;
    assert text == "**" + b;
    SplitAbsent(rest, "**");
    SplitLeading(rest, "**");
    assert Split(a, "**") == [[], rest];
    SplitPrefixFree(w, a, "**");
    assert w + [] == w;
    assert Split(b, "**") == [w, rest];
    SplitLeading(b, "**");
  }

  lemma BoldWeave(w: string, rest: string)
    ensures Weave([[], w, rest], "**") == ["", "**", w, "**", rest]
  {
    var pieces: seq<string> := [[], w, rest];
    assert pieces[1..] == [w, rest] && [w, rest][1..] == [rest];
    assert Weave([rest], "**") == [rest];
    assert Weave([w, rest], "**") == [w, "**", rest];
  }

  lemma SpacePass(w: string, t: string) returns (l6: seq<string>)
    requires ' ' !in w && ' ' !in t && w != []
    ensures SplitPass(["", "**", w, "**", " " + t + "\n"], " ") == l6
    ensures l6 == ["", "**", w, "**", "", " ", t + "\n"]
  {
    var u := t + "\n";
    var tail := " " + t + "\n";
    SpaceTail(t);
    SplitPassCons(tail, [], " ");
    var front: seq<string> := ["", "**", w, "**"];
    SplitPassKeeps(front, " ");
    SplitPassAppend(front, [tail], " ");
    assert ["", "**", w, "**", tail] == front + [tail];
    l6 := front + ["", " ", u];
  }

  /** The last piece of the example splits at its leading space. */
  lemma SpaceTail(t: string)
    requires ' ' !in t
    ensures SplitAround(" " + t + "\n", " ") == [[], " ", t + "\n"]
  {
    var u := t + "\n";
    var tail := " " + t + "\n";
    assert tail == " " + u;
    assert ' ' !in u;
    SplitAbsent(u, " ");
    SplitLeading(u, " ");
    assert Split(tail, " ") == [[], u];
    assert tail !in MdTokens by {
      assert |tail| >= 2 && tail[0] == ' ';
    }
    var pieces: seq<string> := [[], u];
    assert pieces[1..] == [u];
    assert Weave([u], " ") == [u];
    assert Weave(pieces, " ") == [[], " "] + [u];
  }

  /** A word followed by the closing newline splits at that newline. */
  lemma NewlineTail(t: string)
    requires '\n' !in t && t != []
    ensures SplitAround(t + "\n", "\n") == [t, "\n", []]
  {
    var u := t + "\n";
    var nl := "\n";
    SplitLeading([], nl);
    assert nl + [] == nl;
    assert Split(nl, nl) == [[], []];
    SplitPrefixFree(t, nl, nl);
    assert t + [] == t;
    assert Split(u, nl) == [t, []];
    assert u !in MdTokens by {
      assert |u| >= 2 && u[|u| - 1] == '\n';
    }
    var pieces: seq<string> := [t, []];
    assert pieces[1..] == [[]];
    assert Weave([[]], nl) == [[]];
    assert Weave(pieces, nl) == [t, nl] + [[]];
  }

  lemma NewlinePass(w: string, t: string) returns (l7: seq<string>)
    requires '\n' !in w && '\n' !in t && w != [] && t != []
    ensures SplitPass(["", "**", w, "**", "", " ", t + "\n"], "\n") == l7
    ensures l7 == ["", "**", w, "**", "", " ", t, "\n", ""]
  {
    var u := t + "\n";
    var nl := "\n";
    NewlineTail(t);
    SplitPassCons(u, [], nl);
    var front: seq<string> := ["", "**", w, "**", "", " "];
    SplitPassKeeps(front, nl);
    SplitPassAppend(front, [u], nl);
    assert ["", "**", w, "**", "", " ", u] == front + [u];
    l7 := front + [t, nl, []];
  }

  lemma {:induction false} SplitPassAppend(a: seq<string>, b: seq<string>, d: string)
    requires d != []
    ensures SplitPass(a + b, d) == SplitPass(a, d) + SplitPass(b, d)
  {
    if a != [] {
      assert (a + b)[0] == a[0] && (a + b)[1..] == a[1..] + b;
      SplitPassAppend(a[1..], b, d);
    } else {
      assert a + b == b;
    }
  }
}
