/** The template interpreter: parsing by searching for braces, and what the parsed tree
    means. */
module Template {
  const OPEN := "{{"
  const CLOSE := "}}"

  /** Two characters `c` in a row stand in `s` at `i`. */
  predicate DoubledAt(s: string, c: char, i: nat) {
    i + 1 < |s| && s[i] == c && s[i + 1] == c
  }

  /** strings.Index for a doubled character: the first occurrence, or -1. */
  function Index(s: string, c: char): (r: int)
    ensures r == -1 ==> forall i: nat :: !DoubledAt(s, c, i)
    ensures r != -1 ==> 0 <= r && DoubledAt(s, c, r) && forall i | 0 <= i < r :: !DoubledAt(s, c, i)
  {
    IndexFrom(s, c, 0)
  }

  function IndexFrom(s: string, c: char, from: nat): (r: int)
    ensures r == -1 ==> forall i: nat | from <= i :: !DoubledAt(s, c, i)
    ensures r != -1 ==> from <= r && DoubledAt(s, c, r) && forall i | from <= i < r :: !DoubledAt(s, c, i)
    decreases |s| - from
  {
    if DoubledAt(s, c, from) then from
    else if from >= |s| then -1
    else IndexFrom(s, c, from + 1)
  }

  /** White space as unicode.IsSpace has it. */
  predicate IsSpace(c: char) {
    c in "\t\n\U{000B}\U{000C}\r \U{0085}\U{00A0}\U{1680}\U{2028}\U{2029}\U{202F}\U{205F}\U{3000}"
    || '\U{2000}' <= c <= '\U{200A}'
  }

  function TrimLeft(s: string): string {
    if s != "" && IsSpace(s[0]) then TrimLeft(s[1..]) else s
  }

  function TrimRight(s: string): string {
    if s != "" && IsSpace(s[|s| - 1]) then TrimRight(s[..|s| - 1]) else s
  }

  function TrimSpace(s: string): string { TrimRight(TrimLeft(s)) }

  /** Trimming takes away white space at both ends, all of it and nothing else. */
  lemma TrimSpaceTrims(s: string)
    ensures var t := TrimSpace(s);
            && (t != "" ==> !IsSpace(t[0]) && !IsSpace(t[|t| - 1]))
            && exists i, j | 0 <= i <= j <= |s| :: t == s[i..j] && forall k | 0 <= k < i || j <= k < |s| :: IsSpace(s[k])
  {
    hide IsSpace, TrimLeft, TrimRight;
    TrimLeftTrims(s);
    TrimRightTrims(TrimLeft(s));
    var l, t := TrimLeft(s), TrimSpace(s);
    var i := |s| - |l|;
    var j := i + |t|;
    assert t == s[i..j];
    forall k | 0 <= k < i || j <= k < |s|
      ensures IsSpace(s[k])
    {
      assert k >= j ==> s[k] == l[k - i];
    }
  }

  lemma {:induction false} TrimLeftTrims(s: string)
    ensures |TrimLeft(s)| <= |s| && TrimLeft(s) == s[|s| - |TrimLeft(s)|..]
    ensures forall k | 0 <= k < |s| - |TrimLeft(s)| :: IsSpace(s[k])
    ensures TrimLeft(s) != "" ==> !IsSpace(TrimLeft(s)[0])
    decreases |s|
  {
    hide IsSpace;
    if s != "" && IsSpace(s[0]) {
      TrimLeftTrims(s[1..]);
    }
  }

  lemma {:induction false} TrimRightTrims(s: string)
    ensures TrimRight(s) <= s
    ensures forall k | |TrimRight(s)| <= k < |s| :: IsSpace(s[k])
    ensures TrimRight(s) != "" ==> !IsSpace(TrimRight(s)[|TrimRight(s)| - 1])
    decreases |s|
  {
    hide IsSpace;
    if s != "" && IsSpace(s[|s| - 1]) {
      TrimRightTrims(s[..|s| - 1]);
    }
  }

  datatype Node = TextNode(content: string) | VarNode(key: string)

  /** Node.Interpreter: a text is its content, a variable what the context formats it to,
      or nothing when the context does not have it. */
  function Interpret(node: Node, data: map<string, string>): string {
    match node
    case TextNode(content) => content
    case VarNode(key) => if key in data then data[key] else ""
  }

  function InterpretAll(tree: seq<Node>, data: map<string, string>): string {
    if tree == [] then "" else Interpret(tree[0], data) + InterpretAll(tree[1..], data)
  }

  lemma {:induction false} InterpretConcat(a: seq<Node>, b: seq<Node>, data: map<string, string>)
    ensures InterpretAll(a + b, data) == InterpretAll(a, data) + InterpretAll(b, data)
    decreases |a|
  {
    if a == [] {
      assert a + b == b;
    } else {
      assert (a + b)[1..] == a[1..] + b;
      InterpretConcat(a[1..], b, data);
    }
  }

  // ---- Substitution, one character at a time ----

  function ValueOf(key: string, data: map<string, string>): (v: string)
    ensures v == "" || (key in data && v == data[key])
    ensures key in data ==> v == data[key]
  {
    if key in data then data[key] else ""
  }

  /** The reader's states: in plain text, or inside the braces with the key read so far. */
  datatype Mode = Plain | Braces(key: string)

  /** Left-to-right substitution that reads the template character by character: plain text
      is copied, "{{" opens a key, the next "}}" closes it and writes the value of the
      trimmed key if there is one, and a key that is never closed writes nothing. */
  function Substitute(t: string, mode: Mode, data: map<string, string>): string
    decreases |t|
  {
    if t == "" then ""
    else
      match mode
      case Plain =>
        if DoubledAt(t, '{', 0) then Substitute(t[2..], Braces(""), data)
        else [t[0]] + Substitute(t[1..], Plain, data)
      case Braces(key) =>
        if DoubledAt(t, '}', 0)
        then ValueOf(TrimSpace(key), data) + Substitute(t[2..], Plain, data)
        else Substitute(t[1..], Braces(key + [t[0]]), data)
  }

  // ---- Parsing ----

  /** One round of ParseTemplate: the text before the first "{{", and what stands between it
      and the next "}}". */
  datatype Cut = NoOpen | Unclosed(text: string, rest: string) | Closed(text: string, inner: string, rest: string)

  function CutAt(t: string): (c: Cut)
    ensures c.Closed? ==> |c.rest| < |t|
  {
    var start := Index(t, '{');
    if start == -1 then NoOpen
    else
      var end := Index(t[start..], '}');
      if end == -1 then Unclosed(t[..start], t[start + 2..])
      else
        EndIsBehindOpen(t, start, end);
        Closed(t[..start], t[start + 2..start + end], t[start + end + 2..])
  }

  /** The search for "}}" starts at the opening braces, which cannot be part of a match. */
  lemma EndIsBehindOpen(t: string, start: nat, end: nat)
    requires DoubledAt(t, '{', start) && DoubledAt(t[start..], '}', end)
    ensures end >= 2 && start + end + 2 <= |t|
  {
  }

  lemma CutNoOpen(t: string)
    requires CutAt(t).NoOpen?
    ensures forall i: nat :: !DoubledAt(t, '{', i)
  {
  }

  lemma CutText(t: string)
    requires !CutAt(t).NoOpen?
    ensures forall i | 0 <= i < |CutAt(t).text| :: !DoubledAt(t, '{', i)
    ensures CutAt(t).text <= t
  {
  }

  lemma CutUnclosed(t: string)
    requires CutAt(t).Unclosed?
    ensures t == CutAt(t).text + (OPEN + CutAt(t).rest)
    ensures forall i: nat :: !DoubledAt(CutAt(t).rest, '}', i)
  {
    var start := Index(t, '{');
    var rest := t[start + 2..];
    forall i: nat
      ensures !DoubledAt(rest, '}', i)
    {
      assert !DoubledAt(t[start..], '}', i + 2);
    }
  }

  /** A key that is closed, and what follows. */
  function Tail(inner: string, rest: string): string { inner + (CLOSE + rest) }

  lemma CutClosed(t: string)
    requires CutAt(t).Closed?
    ensures var c := CutAt(t);
            Tail(c.inner, c.rest) == t[Index(t, '{') + 2..] && t == c.text + (OPEN + Tail(c.inner, c.rest))
  {
    hide CutAt, Index, IndexFrom, DoubledAt, Tail;
    var (start, end) := ClosedCut(t);
    ClosesAt(t, start, end);
    Pieces(t, start, start + end);
  }

  /** Where a closed cut was made. */
  ghost function ClosedCut(t: string): (r: (nat, nat))
    requires CutAt(t).Closed?
    ensures var (start, end) := r;
            && start == Index(t, '{') && 2 <= end && start + end + 2 <= |t|
            && DoubledAt(t, '{', start) && t[start] == t[start + 1] == '{' && DoubledAt(t[start..], '}', end)
            && CutAt(t) == Closed(t[..start], t[start + 2..start + end], t[start + end + 2..])
  {
    hide Index, IndexFrom;
    var start := Index(t, '{');
    var end := Index(t[start..], '}');
    EndIsBehindOpen(t, start, end);
    (start, end)
  }

  lemma ClosesAt(t: string, start: nat, end: nat)
    requires start + end + 2 <= |t| && DoubledAt(t[start..], '}', end)
    ensures t[start + end] == t[start + end + 1] == '}'
  {
    assert t[start..][end] == t[start + end] && t[start..][end + 1] == t[start + end + 1];
  }

  lemma CutClosedFirst(t: string, tail: string)
    requires CutAt(t).Closed? && tail == Tail(CutAt(t).inner, CutAt(t).rest)
    ensures forall i | 0 <= i < |CutAt(t).inner| :: !DoubledAt(tail, '}', i)
  {
    CutClosed(t);
    var start := Index(t, '{');
    var end := Index(t[start..], '}');
    EndIsBehindOpen(t, start, end);
    BehindTwo(t[start..], tail, end);
  }

  lemma BehindTwo(s: string, tail: string, n: nat)
    requires |s| >= 2 && tail == s[2..] && n >= 2
    requires forall i | 0 <= i < n :: !DoubledAt(s, '}', i)
    ensures forall i | 0 <= i < n - 2 :: !DoubledAt(tail, '}', i)
  {
    forall i | 0 <= i < n - 2
      ensures !DoubledAt(tail, '}', i)
    {
      assert !DoubledAt(s, '}', i + 2);
    }
  }

  lemma Pieces(t: string, open: nat, close: nat)
    requires open + 2 <= close && close + 2 <= |t|
    requires t[open] == t[open + 1] == '{' && t[close] == t[close + 1] == '}'
    ensures t[open + 2..] == Tail(t[open + 2..close], t[close + 2..])
    ensures t == t[..open] + (OPEN + Tail(t[open + 2..close], t[close + 2..]))
  {
    assert t[open + 2..] == Tail(t[open + 2..close], t[close + 2..]);
  }

  /** The tree ParseTemplate builds. */
  function Parse(t: string): seq<Node>
    decreases |t|
  {
    match CutAt(t)
    case NoOpen => [TextNode(t)]
    case Unclosed(text, _) => [TextNode(text)]
    case Closed(text, inner, rest) => [TextNode(text), VarNode(TrimSpace(inner))] + Parse(rest)
  }

  /** A text and the braces that follow it, as written; the last text has none. */
  datatype Span = Span(text: string, raw: string)

  function Spans(t: string): seq<Span>
    decreases |t|
  {
    match CutAt(t)
    case NoOpen => [Span(t, "")]
    case Unclosed(text, _) => [Span(text, "")]
    case Closed(text, inner, rest) => [Span(text, OPEN + inner + CLOSE)] + Spans(rest)
  }

  function Written(spans: seq<Span>): string {
    if spans == [] then "" else spans[0].text + spans[0].raw + Written(spans[1..])
  }

  /** Every opening pair of braces has a closing pair behind it. */
  predicate AllClosed(t: string)
    decreases |t|
  {
    match CutAt(t)
    case NoOpen => true
    case Unclosed(_, _) => false
    case Closed(_, _, rest) => AllClosed(rest)
  }

  /** Texts and raw spans give back the template exactly when everything is closed; what
      follows an unclosed "{{" is dropped. */
  lemma {:induction false} SpansGiveBackTemplate(t: string)
    ensures Written(Spans(t)) <= t
    ensures Written(Spans(t)) == t <==> AllClosed(t)
    decreases |t|
  {
    hide CutAt;
    match CutAt(t)
    case NoOpen =>
      assert Written([Span(t, "")]) == t;
    case Unclosed(text, _) =>
      CutUnclosed(t);
      assert Written([Span(text, "")]) == text;
    case Closed(text, inner, rest) =>
      CutClosed(t);
      SpansGiveBackTemplate(rest);
      var head := text + (OPEN + inner + CLOSE);
      HeadAndRest(text, inner, rest);
      assert Written(Spans(t)) == head + Written(Spans(rest));
      PrefixCancels(head, Written(Spans(rest)), rest);
  }

  lemma HeadAndRest(text: string, inner: string, rest: string)
    ensures text + (OPEN + Tail(inner, rest)) == text + (OPEN + inner + CLOSE) + rest
  {
  }

  lemma PrefixCancels(x: string, s: string, t: string)
    ensures x + s == x + t <==> s == t
    ensures s <= t ==> x + s <= x + t
  {
    assert (x + s)[|x|..] == s && (x + t)[|x|..] == t;
  }

  /** The nodes are the spans in order, a text for every text and a trimmed key for every
      pair of braces; no text contains an opening pair. */
  lemma {:induction false} NodesAreSpans(t: string)
    ensures Match(Parse(t), Spans(t))
    decreases |t|
  {
    hide CutAt, Index;
    var (nodes, spans) := (Parse(t), Spans(t));
    match CutAt(t)
    case NoOpen =>
      CutNoOpen(t);
      TextHasNoOpen(t, t);
    case Unclosed(text, _) =>
      CutText(t);
      TextHasNoOpen(text, t);
    case Closed(text, inner, rest) =>
      CutText(t);
      TextHasNoOpen(text, t);
      NodesAreSpans(rest);
      var (nodes', spans') := (Parse(rest), Spans(rest));
      assert spans == [Span(text, OPEN + inner + CLOSE)] + spans';
      assert nodes == [TextNode(text), VarNode(TrimSpace(inner))] + nodes';
      NodesAreSpansCons(text, inner, nodes', spans');
  }

  ghost predicate Match(nodes: seq<Node>, spans: seq<Span>) {
    && |nodes| == 2 * |spans| - 1
    && (forall i | 0 <= i < |spans| ::
          nodes[2 * i] == TextNode(spans[i].text) && Index(spans[i].text, '{') == -1)
    && (forall i | 0 <= i < |spans| - 1 ::
          exists inner :: spans[i].raw == OPEN + inner + CLOSE && nodes[2 * i + 1] == VarNode(TrimSpace(inner)))
  }

  lemma NodesAreSpansCons(text: string, inner: string, nodes: seq<Node>, spans: seq<Span>)
    requires Match(nodes, spans) && Index(text, '{') == -1
    ensures Match([TextNode(text), VarNode(TrimSpace(inner))] + nodes, [Span(text, OPEN + inner + CLOSE)] + spans)
  {
    hide Index;
    var n := [TextNode(text), VarNode(TrimSpace(inner))] + nodes;
    var s := [Span(text, OPEN + inner + CLOSE)] + spans;
    forall i | 0 <= i < |s|
      ensures n[2 * i] == TextNode(s[i].text) && Index(s[i].text, '{') == -1
    {
      if i > 0 {
        assert s[i] == spans[i - 1] && n[2 * i] == nodes[2 * (i - 1)];
      }
    }
    forall i | 0 <= i < |s| - 1
      ensures exists x :: s[i].raw == OPEN + x + CLOSE && n[2 * i + 1] == VarNode(TrimSpace(x))
    {
      if i == 0 {
        assert s[0].raw == OPEN + inner + CLOSE && n[1] == VarNode(TrimSpace(inner));
      } else {
        assert s[i] == spans[i - 1] && n[2 * i + 1] == nodes[2 * (i - 1) + 1];
      }
    }
  }

  lemma TextHasNoOpen(text: string, t: string)
    requires text <= t && forall i | 0 <= i < |text| :: !DoubledAt(t, '{', i)
    ensures Index(text, '{') == -1
  {
    forall i: nat
      ensures !DoubledAt(text, '{', i)
    {
      if i < |text| {
        assert !DoubledAt(t, '{', i);
      }
    }
  }

  // ---- The tree means left-to-right substitution ----

  /** Plain text up to the first opening braces is copied. */
  lemma {:induction false} CopiesText(text: string, tail: string, data: map<string, string>)
    requires forall i | 0 <= i < |text| :: !DoubledAt(text + tail, '{', i)
    ensures Substitute(text + tail, Plain, data) == text + Substitute(tail, Plain, data)
    decreases |text|
  {
    if text == "" {
      assert text + tail == tail;
    } else {
      var t := text + tail;
      assert t[1..] == text[1..] + tail;
      assert !DoubledAt(t, '{', 0);
      forall i | 0 <= i < |text[1..]|
        ensures !DoubledAt(text[1..] + tail, '{', i)
      {
        assert !DoubledAt(t, '{', i + 1);
      }
      CopiesText(text[1..], tail, data);
      assert text == [t[0]] + text[1..];
    }
  }

  /** Inside the braces everything up to the first closing pair goes into the key. */
  lemma {:induction false} CollectsKey(inner: string, tail: string, key: string, data: map<string, string>)
    requires forall i | 0 <= i < |inner| :: !DoubledAt(inner + tail, '}', i)
    ensures Substitute(inner + tail, Braces(key), data) == Substitute(tail, Braces(key + inner), data)
    decreases |inner|
  {
    if inner == "" {
      assert inner + tail == tail && key + inner == key;
    } else {
      var t := inner + tail;
      assert t[1..] == inner[1..] + tail;
      assert !DoubledAt(t, '}', 0);
      forall i | 0 <= i < |inner[1..]|
        ensures !DoubledAt(inner[1..] + tail, '}', i)
      {
        assert !DoubledAt(t, '}', i + 1);
      }
      CollectsKey(inner[1..], tail, key + [t[0]], data);
      assert key + [t[0]] + inner[1..] == key + inner;
    }
  }

  lemma OpensKey(tail: string, data: map<string, string>)
    ensures Substitute(OPEN + tail, Plain, data) == Substitute(tail, Braces(""), data)
  {
  }

  lemma ClosesKey(key: string, tail: string, data: map<string, string>)
    ensures Substitute(CLOSE + tail, Braces(key), data)
            == ValueOf(TrimSpace(key), data) + Substitute(tail, Plain, data)
  {
  }

  /** For every template and every context, interpreting the parsed tree is left-to-right
      substitution. */
  lemma {:induction false} TreeMeansSubstitution(t: string, data: map<string, string>)
    ensures InterpretAll(Parse(t), data) == Substitute(t, Plain, data)
    decreases |t|
  {
    hide Substitute, CutAt, Interpret, InterpretAll, Parse, TrimSpace, Index;
    ParseRound(t);
    match CutAt(t)
    case NoOpen =>
      CutNoOpen(t);
      TextInterprets(t, data);
      assert t + "" == t;
      CopiesText(t, "", data);
      EmptySubstitutes(Plain, data);
    case Unclosed(text, rest) =>
      CutText(t);
      CutUnclosed(t);
      CopiesText(text, OPEN + rest, data);
      OpensKey(rest, data);
      assert rest + "" == rest;
      CollectsKey(rest, "", "", data);
      EmptySubstitutes(Braces("" + rest), data);
      TextInterprets(text, data);
    case Closed(text, inner, rest) =>
      CutText(t);
      CutClosed(t);
      CutClosedFirst(t, Tail(inner, rest));
      CopiesText(text, OPEN + Tail(inner, rest), data);
      OpensKey(Tail(inner, rest), data);
      CollectsKey(inner, CLOSE + rest, "", data);
      assert "" + inner == inner;
      ClosesKey(inner, rest, data);
      TreeMeansSubstitution(rest, data);
      InterpretConcat([TextNode(text), VarNode(TrimSpace(inner))], Parse(rest), data);
      PairInterprets(text, TrimSpace(inner), data);
  }

  lemma EmptySubstitutes(mode: Mode, data: map<string, string>)
    ensures Substitute("", mode, data) == ""
  {
  }

  lemma TextInterprets(text: string, data: map<string, string>)
    ensures InterpretAll([TextNode(text)], data) == text
  {
  }

  lemma PairInterprets(text: string, key: string, data: map<string, string>)
    ensures InterpretAll([TextNode(text), VarNode(key)], data) == text + ValueOf(key, data)
  {
    assert [TextNode(text), VarNode(key)][1..] == [VarNode(key)];
    assert InterpretAll([VarNode(key)], data) == Interpret(VarNode(key), data);
  }

  // ---- The loops ----

  /** ParseTemplate: appends a text and a variable per round until no closed braces are left. */
  method ParseTemplate(tmpl: string) returns (tree: seq<Node>)
    ensures tree == Parse(tmpl)
  {
    hide CutAt, Index, Parse, TrimSpace;
    tree := [];
    var index := 0;
    assert tmpl[0..] == tmpl;
    while true
      invariant 0 <= index <= |tmpl|
      invariant tree + Parse(tmpl[index..]) == Parse(tmpl)
      decreases |tmpl| - index
    {
      RoundIsCut(tmpl, index);
      ParseRound(tmpl[index..]);
      ghost var before := tree;
      var startIndex := Index(tmpl[index..], '{');
      if startIndex == -1 {
        tree := tree + [TextNode(tmpl[index..])];
        assert tree == before + Parse(tmpl[index..]);
        break;
      }
      var text := tmpl[index..index + startIndex];
      tree := tree + [TextNode(text)];
      var endIndex := Index(tmpl[index + startIndex..], '}');
      if endIndex == -1 {
        assert tree == before + Parse(tmpl[index..]);
        break;
      }
      var key := TrimSpace(tmpl[index + startIndex + 2..index + startIndex + endIndex]);
      tree := tree + [VarNode(key)];
      index := index + startIndex + endIndex + 2;
      Associates(before, TextNode(text), VarNode(key), Parse(tmpl[index..]));
    }
  }

  lemma Associates(before: seq<Node>, x: Node, y: Node, after: seq<Node>)
    ensures before + [x] + [y] + after == before + ([x, y] + after)
  {
  }

  lemma ParseRound(t: string)
    ensures match CutAt(t)
            case NoOpen => Parse(t) == [TextNode(t)]
            case Unclosed(text, _) => Parse(t) == [TextNode(text)]
            case Closed(text, inner, rest) => Parse(t) == [TextNode(text), VarNode(TrimSpace(inner))] + Parse(rest)
  {
  }

  /** The slices one round of the loop takes are in range and are those of the cut. */
  lemma RoundIsCut(tmpl: string, index: nat)
    requires index <= |tmpl|
    ensures var start := Index(tmpl[index..], '{');
            match CutAt(tmpl[index..])
            case NoOpen => start == -1
            case Unclosed(text, _) =>
              && 0 <= start && index + start + 2 <= |tmpl| && text == tmpl[index..index + start]
              && Index(tmpl[index + start..], '}') == -1
            case Closed(text, inner, rest) =>
              && 0 <= start && index + start + 2 <= |tmpl| && text == tmpl[index..index + start]
              && var end := Index(tmpl[index + start..], '}');
                 && 2 <= end && index + start + end + 2 <= |tmpl|
                 && inner == tmpl[index + start + 2..index + start + end]
                 && rest == tmpl[index + start + end + 2..]
  {
  }

  /** Template.Interpreter: concatenates what the nodes interpret to. */
  method Interpreter(tree: seq<Node>, data: map<string, string>) returns (s: string)
    ensures s == InterpretAll(tree, data)
  {
    s := "";
    for i := 0 to |tree|
      invariant s == InterpretAll(tree[..i], data)
    {
      InterpretConcat(tree[..i], [tree[i]], data);
      assert tree[..i + 1] == tree[..i] + [tree[i]];
      assert InterpretAll([tree[i]], data) == Interpret(tree[i], data);
      s := s + Interpret(tree[i], data);
    }
    assert tree[..|tree|] == tree;
  }
}
