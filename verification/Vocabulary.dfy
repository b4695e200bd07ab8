/** The keyword gate: `build` turns terms into the text of one case-insensitive regular expression,
    `matches` searches with it. The pattern is built as a string, read back by the grammar of the
    fragment it uses, and run by a backtracking matcher; the theorem is that a text matches iff some
    non-blank term occurs in it on word boundaries. */
module Vocabulary {
  import opened Wrappers
  import opened Recency

  /** What a character is: whitespace, a word character, its lower case (which keys the terms) and its
      fold under case-insensitive matching. */
  datatype Chars = Chars(space: char -> bool, word: char -> bool, lower: char -> char, fold: char -> char)

  /** A blank is whitespace, nothing else has its lower case, and characters with one lower case match each
      other when case is ignored. */
  ghost predicate CharsOk(cs: Chars) {
    && cs.space(' ')
    && (forall c :: cs.lower(c) == cs.lower(' ') ==> c == ' ')
    && (forall c, d :: cs.lower(c) == cs.lower(d) ==> cs.fold(c) == cs.fold(d))
  }

  function Lower(cs: Chars, s: string): string {
    seq(|s|, i requires 0 <= i < |s| => cs.lower(s[i]))
  }

  // ---------------------------------------------------------------------------------------
  // The meaning
  // ---------------------------------------------------------------------------------------

  predicate WordCharAt(cs: Chars, text: string, i: int) {
    0 <= i < |text| && cs.word(text[i])
  }

  /** Exactly one side of position `i` is a word character. */
  predicate Boundary(cs: Chars, text: string, i: nat) {
    WordCharAt(cs, text, i - 1) != WordCharAt(cs, text, i)
  }

  /** `w` stands at `i`, equal up to case. */
  predicate WordAt(cs: Chars, w: string, text: string, i: nat) {
    i + |w| <= |text| && forall k :: 0 <= k < |w| ==> cs.fold(w[k]) == cs.fold(text[i + k])
  }

  /** One or more whitespace characters fill positions `i` to `k`. */
  predicate Gap(cs: Chars, text: string, i: nat, k: nat) {
    i < k <= |text| && forall j :: i <= j < k ==> cs.space(text[j])
  }

  /** The words stand between `i` and `j`, one after the other, gaps between them. */
  ghost predicate PhraseAt(cs: Chars, words: seq<string>, text: string, i: nat, j: nat)
    requires words != []
    decreases |words|
  {
    if |words| == 1 then WordAt(cs, words[0], text, i) && j == i + |words[0]|
    else
      WordAt(cs, words[0], text, i) &&
      exists k: nat :: Gap(cs, text, i + |words[0]|, k) && PhraseAt(cs, words[1..], text, k, j)
  }

  /** The phrase stands at `i` and a boundary follows it. */
  ghost predicate BoundedPhrase(cs: Chars, words: seq<string>, text: string, i: nat)
    requires words != []
  {
    exists j: nat :: PhraseAt(cs, words, text, i, j) && Boundary(cs, text, j)
  }

  ghost predicate Occurs(cs: Chars, words: seq<string>, text: string) {
    words != [] && exists i: nat :: i <= |text| && Boundary(cs, text, i) && BoundedPhrase(cs, words, text, i)
  }

  lemma {:induction false} PhraseFits(cs: Chars, words: seq<string>, text: string, i: nat, j: nat)
    requires words != [] && PhraseAt(cs, words, text, i, j)
    ensures i <= j <= |text|
    decreases |words|
  {
    if |words| > 1 {
      var k: nat :| Gap(cs, text, i + |words[0]|, k) && PhraseAt(cs, words[1..], text, k, j);
      PhraseFits(cs, words[1..], text, k, j);
    }
  }

  /** Of the characters next to a position, the last of `before` and the first of `after`, exactly one is a
      word character. */
  predicate WordMeetsNone(cs: Chars, before: string, after: string) {
    (before != "" && cs.word(before[|before| - 1])) <==> !(after != "" && cs.word(after[0]))
  }

  ghost predicate StandsAlone(cs: Chars, words: seq<string>, text: string, i: nat, j: nat)
    requires words != []
  {
    && i <= j <= |text| && PhraseAt(cs, words, text, i, j)
    && WordMeetsNone(cs, text[..i], text[i..]) && WordMeetsNone(cs, text[..j], text[j..])
  }

  /** What occurring asks of the text around the phrase: at either end of it a word character meets something
      that is none, the edge of the text counting as none. */
  lemma {:induction false} OccursMeans(cs: Chars, words: seq<string>, text: string)
    requires words != []
    ensures Occurs(cs, words, text) <==>
            exists i: nat, j: nat :: StandsAlone(cs, words, text, i, j)
  {
    if Occurs(cs, words, text) {
      var i: nat :| i <= |text| && Boundary(cs, text, i) && BoundedPhrase(cs, words, text, i);
      var j: nat :| PhraseAt(cs, words, text, i, j) && Boundary(cs, text, j);
      PhraseFits(cs, words, text, i, j);
      BoundaryMeans(cs, text, i);
      BoundaryMeans(cs, text, j);
      assert StandsAlone(cs, words, text, i, j);
    }
    if i: nat, j: nat :| StandsAlone(cs, words, text, i, j) {
      BoundaryMeans(cs, text, i);
      BoundaryMeans(cs, text, j);
      assert BoundedPhrase(cs, words, text, i);
    }
  }

  lemma {:induction false} BoundaryMeans(cs: Chars, text: string, i: nat)
    requires i <= |text|
    ensures Boundary(cs, text, i) <==> WordMeetsNone(cs, text[..i], text[i..])
  {
  }

  // ---------------------------------------------------------------------------------------
  // Splitting and joining
  // ---------------------------------------------------------------------------------------

  function WordLength(cs: Chars, s: string): (n: nat)
    ensures n <= |s| && (forall k :: 0 <= k < n ==> !cs.space(s[k])) && (n < |s| ==> cs.space(s[n]))
  {
    if s == "" || cs.space(s[0]) then 0 else 1 + WordLength(cs, s[1..])
  }

  /** `term.split()`: the maximal runs of non-whitespace. */
  function Words(cs: Chars, s: string): seq<string>
    decreases |s|
  {
    if s == "" then []
    else if cs.space(s[0]) then Words(cs, s[1..])
    else [s[..WordLength(cs, s)]] + Words(cs, s[WordLength(cs, s)..])
  }

  predicate AllSpace(cs: Chars, s: string) {
    forall c :: c in s ==> cs.space(c)
  }

  predicate Solid(cs: Chars, w: string) {
    w != "" && forall c :: c in w ==> !cs.space(c)
  }

  function Interleave(gaps: seq<string>, ws: seq<string>): string
    requires |gaps| == |ws| + 1
  {
    if ws == [] then gaps[0] else gaps[0] + ws[0] + Interleave(gaps[1..], ws[1..])
  }

  /** Whitespace before, between and after the words, some of it between any two. */
  predicate GapsOk(cs: Chars, gaps: seq<string>, ws: seq<string>) {
    && |gaps| == |ws| + 1
    && (forall i :: 0 <= i < |gaps| ==> AllSpace(cs, gaps[i]))
    && (forall i :: 0 < i < |ws| ==> gaps[i] != "")
    && (forall i :: 0 <= i < |ws| ==> Solid(cs, ws[i]))
  }

  /** `s` is these solid words, literally, with whitespace around them. */
  ghost predicate SplitsInto(cs: Chars, s: string, ws: seq<string>) {
    exists gaps :: GapsOk(cs, gaps, ws) && s == Interleave(gaps, ws)
  }

  lemma {:induction false} SpaceSkipped(cs: Chars, gap: string, t: string)
    requires AllSpace(cs, gap)
    ensures Words(cs, gap + t) == Words(cs, t)
    decreases |gap|
  {
    if gap == "" {
      assert gap + t == t;
    } else {
      assert gap[0] in gap && (gap + t)[1..] == gap[1..] + t;
      SpaceSkipped(cs, gap[1..], t);
    }
  }

  lemma {:induction false} RunLength(cs: Chars, w: string, t: string)
    requires (forall c :: c in w ==> !cs.space(c)) && (t != "" ==> cs.space(t[0]))
    ensures WordLength(cs, w + t) == |w|
    decreases |w|
  {
    if w == "" {
      assert w + t == t;
    } else {
      assert w[0] in w && (w + t)[1..] == w[1..] + t;
      RunLength(cs, w[1..], t);
    }
  }

  lemma {:induction false} WordFirst(cs: Chars, w: string, t: string)
    requires Solid(cs, w) && (t != "" ==> cs.space(t[0]))
    ensures Words(cs, w + t) == [w] + Words(cs, t)
  {
    RunLength(cs, w, t);
    assert w[0] in w && (w + t)[..|w|] == w && (w + t)[|w|..] == t;
  }

  lemma {:induction false} WordsOfInterleave(cs: Chars, gaps: seq<string>, ws: seq<string>)
    requires GapsOk(cs, gaps, ws)
    ensures Words(cs, Interleave(gaps, ws)) == ws
    decreases |ws|
  {
    if ws == [] {
      SpaceSkipped(cs, gaps[0], "");
      assert gaps[0] + "" == gaps[0];
    } else {
      var t := Interleave(gaps[1..], ws[1..]);
      WordsOfInterleave(cs, gaps[1..], ws[1..]);
      assert gaps[1] != "" ==> gaps[1][0] in gaps[1] && t[0] == gaps[1][0];
      WordFirst(cs, ws[0], t);
      SpaceSkipped(cs, gaps[0], ws[0] + t);
      assert gaps[0] + ws[0] + t == gaps[0] + (ws[0] + t);
    }
  }

  /** The gaps between the words `term.split()` gives. */
  lemma {:induction false} OneMoreWord(cs: Chars, w: string, rest: seq<string>, ws: seq<string>)
    requires Solid(cs, w) && GapsOk(cs, rest, ws) && (ws != [] ==> rest[0] != "")
    ensures GapsOk(cs, [""] + rest, [w] + ws)
    ensures Interleave([""] + rest, [w] + ws) == w + Interleave(rest, ws)
  {
    var gaps := [""] + rest;
    assert gaps[1..] == rest && ([w] + ws)[1..] == ws;
  }

  lemma {:induction false} GapsExist(cs: Chars, s: string)
    ensures SplitsInto(cs, s, Words(cs, s))
    decreases |s|
  {
    var ws := Words(cs, s);
    if s == "" {
      assert GapsOk(cs, [""], ws) && s == Interleave([""], ws);
    } else if cs.space(s[0]) {
      GapsExist(cs, s[1..]);
      var rest :| GapsOk(cs, rest, ws) && s[1..] == Interleave(rest, ws);
      var gaps := rest[0 := [s[0]] + rest[0]];
      assert gaps[1..] == rest[1..] && s == [s[0]] + s[1..];
      assert GapsOk(cs, gaps, ws) && s == Interleave(gaps, ws);
    } else {
      var t := s[WordLength(cs, s)..];
      GapsExist(cs, t);
      var rest :| GapsOk(cs, rest, Words(cs, t)) && t == Interleave(rest, Words(cs, t));
      OneMoreWord(cs, ws[0], rest, Words(cs, t));
      assert s == ws[0] + t && ws == [ws[0]] + Words(cs, t);
    }
  }

  /** `term.split()` is THE way to write a term as solid words with whitespace around them. In particular
      there are no words iff the term is all whitespace. */
  lemma {:induction false} WordsAreTheSplit(cs: Chars, s: string, ws: seq<string>)
    ensures SplitsInto(cs, s, ws) <==> ws == Words(cs, s)
  {
    GapsExist(cs, s);
    if other :| GapsOk(cs, other, ws) && s == Interleave(other, ws) {
      WordsOfInterleave(cs, other, ws);
    }
  }

  function Join(parts: seq<string>, sep: string): string {
    if parts == [] then ""
    else if |parts| == 1 then parts[0]
    else parts[0] + sep + Join(parts[1..], sep)
  }

  /** `s.split(" ")`. */
  function SplitBlank(s: string): (ws: seq<string>)
    ensures ws != []
  {
    if s == "" then [""]
    else
      var rest := SplitBlank(s[1..]);
      if s[0] == ' ' then [""] + rest else [[s[0]] + rest[0]] + rest[1..]
  }

  predicate Blankless(w: string) {
    ' ' !in w
  }

  lemma {:induction false} SplitAfterWord(w: string, t: string)
    requires Blankless(w)
    ensures SplitBlank(w + t) == [w + SplitBlank(t)[0]] + SplitBlank(t)[1..]
    decreases |w|
  {
    if w == "" {
      assert w + t == t && w + SplitBlank(t)[0] == SplitBlank(t)[0];
    } else {
      assert w[0] in w;
      SplitAfterWord(w[1..], t);
      assert (w + t)[1..] == w[1..] + t;
      assert [w[0]] + (w[1..] + SplitBlank(t)[0]) == w + SplitBlank(t)[0];
    }
  }

  /** Joining words with single blanks and splitting on them gives the words back. */
  lemma {:induction false} SplitOfJoin(ws: seq<string>)
    requires ws != [] && forall i :: 0 <= i < |ws| ==> Blankless(ws[i])
    ensures SplitBlank(Join(ws, " ")) == ws
    decreases |ws|
  {
    assert Blankless(ws[0]);
    if |ws| == 1 {
      SplitAfterWord(ws[0], "");
      assert ws[0] + "" == ws[0];
    } else {
      SplitOfJoin(ws[1..]);
      var tail := " " + Join(ws[1..], " ");
      assert tail[1..] == Join(ws[1..], " ");
      assert SplitBlank(tail) == [""] + ws[1..];
      SplitAfterWord(ws[0], tail);
      assert ws[0] + "" == ws[0];
      assert Join(ws, " ") == ws[0] + tail;
    }
  }

  /** Equal when case is ignored. */
  predicate Alike(cs: Chars, a: string, b: string) {
    |a| == |b| && forall i :: 0 <= i < |a| ==> cs.fold(a[i]) == cs.fold(b[i])
  }

  predicate SameWords(cs: Chars, a: seq<string>, b: seq<string>) {
    |a| == |b| && forall i :: 0 <= i < |a| ==> Alike(cs, a[i], b[i])
  }

  /** Equal letter by letter once lowered. */
  predicate SameLowered(cs: Chars, a: string, b: string) {
    |a| == |b| && forall i :: 0 <= i < |a| ==> cs.lower(a[i]) == cs.lower(b[i])
  }

  predicate AllSameLowered(cs: Chars, a: seq<string>, b: seq<string>) {
    |a| == |b| && forall i :: 0 <= i < |a| ==> SameLowered(cs, a[i], b[i])
  }

  /** Strings with one lower case split into words with one lower case. */
  lemma {:induction false} LoweredSplit(cs: Chars, a: string, b: string)
    requires CharsOk(cs) && Lower(cs, a) == Lower(cs, b)
    ensures AllSameLowered(cs, SplitBlank(a), SplitBlank(b))
    decreases |a|
  {
    assert |a| == |Lower(cs, a)| == |b|;
    if a != "" {
      assert Lower(cs, a)[0] == Lower(cs, b)[0];
      assert Lower(cs, a[1..]) == Lower(cs, b[1..]) by {
        assert Lower(cs, a[1..]) == Lower(cs, a)[1..] && Lower(cs, b[1..]) == Lower(cs, b)[1..];
      }
      LoweredSplit(cs, a[1..], b[1..]);
      var x, y := SplitBlank(a[1..]), SplitBlank(b[1..]);
      if a[0] != ' ' {
        assert b[0] != ' ';
        assert SameLowered(cs, x[0], y[0]);
        assert SameLowered(cs, [a[0]] + x[0], [b[0]] + y[0]);
      }
    }
  }

  lemma {:induction false} LoweredJoin(cs: Chars, a: seq<string>, b: seq<string>)
    requires AllSameLowered(cs, a, b)
    ensures SameLowered(cs, Join(a, " "), Join(b, " "))
    decreases |a|
  {
    if a != [] {
      assert SameLowered(cs, a[0], b[0]);
      LoweredJoin(cs, a[1..], b[1..]);
    }
  }

  /** A phrase and one equal to it up to case stand at the same places. */
  lemma {:induction false} SameWordsSamePlaces(cs: Chars, a: seq<string>, b: seq<string>, text: string, i: nat, j: nat)
    requires a != [] && SameWords(cs, a, b) && PhraseAt(cs, a, text, i, j)
    ensures PhraseAt(cs, b, text, i, j)
    decreases |a|
  {
    assert Alike(cs, a[0], b[0]);
    forall k | 0 <= k < |b[0]|
      ensures cs.fold(b[0][k]) == cs.fold(text[i + k])
    {
      assert cs.fold(a[0][k]) == cs.fold(b[0][k]);
    }
    if |a| > 1 {
      var k: nat :| Gap(cs, text, i + |a[0]|, k) && PhraseAt(cs, a[1..], text, k, j);
      SameWordsSamePlaces(cs, a[1..], b[1..], text, k, j);
    }
  }

  lemma {:induction false} SameWordsOccur(cs: Chars, a: seq<string>, b: seq<string>, text: string)
    requires SameWords(cs, a, b) && Occurs(cs, a, text)
    ensures Occurs(cs, b, text)
  {
    var i: nat :| i <= |text| && Boundary(cs, text, i) && BoundedPhrase(cs, a, text, i);
    var j: nat :| PhraseAt(cs, a, text, i, j) && Boundary(cs, text, j);
    SameWordsSamePlaces(cs, a, b, text, i, j);
    assert BoundedPhrase(cs, b, text, i);
  }

  // ---------------------------------------------------------------------------------------
  // The pattern text and the expression it denotes
  // ---------------------------------------------------------------------------------------

  /** The characters `re.escape` puts a backslash before. */
  predicate Escaped(c: char) {
    c in "()[]{}?*+-|^$\\.&~# \t\n\r" || c as int == 11 || c as int == 12
  }

  function EscapeChar(c: char): string {
    if Escaped(c) then ['\\', c] else [c]
  }

  function Escape(w: string): string {
    if w == "" then "" else EscapeChar(w[0]) + Escape(w[1..])
  }

  function EscapeAll(ws: seq<string>): seq<string> {
    seq(|ws|, i requires 0 <= i < |ws| => Escape(ws[i]))
  }

  function Alternative(ws: seq<string>): string {
    Join(EscapeAll(ws), "\\s+")
  }

  function PatternText(alternatives: seq<string>): string {
    "\\b(?:" + Join(alternatives, "|") + ")\\b"
  }

  datatype Node = Lit(c: char) | Spaces

  /** Characters that, unescaped, are not literals. */
  predicate Meta(c: char) {
    c in "()[]{}?*+|^$\\."
  }

  predicate AsciiAlnum(c: char) {
    '0' <= c <= '9' || 'a' <= c <= 'z' || 'A' <= c <= 'Z'
  }

  /** An alternation of sequences of literals and `\s+`, up to a closing parenthesis or the end.
      Anything outside this fragment is refused. */
  function Parse(s: string): Parsed
    decreases |s|
  {
    if s == "" || s[0] == ')' then Parsed([], [], s)
    else if s[0] == '|' then Parse(s[1..]).Bar()
    else if |s| >= 3 && s[0] == '\\' && s[1] == 's' && s[2] == '+' then Parse(s[3..]).After([Spaces])
    else if |s| >= 2 && s[0] == '\\' && !AsciiAlnum(s[1]) then Parse(s[2..]).After([Lit(s[1])])
    else if Meta(s[0]) then Unsupported
    else Parse(s[1..]).After([Lit(s[0])])
  }

  /** The first alternative, the other ones, and what is left unread. */
  datatype Parsed = Unsupported | Parsed(first: seq<Node>, others: seq<seq<Node>>, rest: string)
  {
    function After(ns: seq<Node>): Parsed {
      if Unsupported? then Unsupported else Parsed(ns + first, others, rest)
    }

    function Bar(): Parsed {
      if Unsupported? then Unsupported else Parsed([], [first] + others, rest)
    }
  }

  lemma {:induction false} AfterTwice(a: seq<Node>, b: seq<Node>, r: Parsed)
    ensures r.After(b).After(a) == r.After(a + b)
  {
    if r.Parsed? {
      assert a + (b + r.first) == a + b + r.first;
    }
  }

  /** `re.compile` on a pattern of the shape `\b(?:...)\b`. */
  function Compile(pattern: string): Option<seq<seq<Node>>> {
    if |pattern| < 5 || pattern[..5] != "\\b(?:" then None
    else
      var r := Parse(pattern[5..]);
      if r.Parsed? && r.rest == ")\\b" then Some([r.first] + r.others) else None
  }

  function Lits(w: string): seq<Node> {
    seq(|w|, i requires 0 <= i < |w| => Lit(w[i]))
  }

  function Nodes(ws: seq<string>): seq<Node> {
    if ws == [] then []
    else if |ws| == 1 then Lits(ws[0])
    else Lits(ws[0]) + [Spaces] + Nodes(ws[1..])
  }

  lemma {:induction false} ParseSlashed(c: char, t: string)
    requires Escaped(c)
    ensures Parse(['\\', c] + t) == Parse(t).After([Lit(c)])
  {
    var s := ['\\', c] + t;
    assert s[0] == '\\' && s[1] == c && s[2..] == t && !AsciiAlnum(c);
  }

  lemma {:induction false} ParsePlain(c: char, t: string)
    requires !Escaped(c)
    ensures Parse([c] + t) == Parse(t).After([Lit(c)])
  {
    var s := [c] + t;
    assert s[0] == c && s[1..] == t && !Meta(c);
  }

  lemma {:induction false} ParseChar(c: char, t: string)
    ensures Parse(EscapeChar(c) + t) == Parse(t).After([Lit(c)])
  {
    if Escaped(c) {
      ParseSlashed(c, t);
    } else {
      ParsePlain(c, t);
    }
  }

  /** Escaping is undone by parsing: whatever the word contains, it is read back literally. */
  lemma {:induction false} ParseEscaped(w: string, t: string)
    ensures Parse(Escape(w) + t) == Parse(t).After(Lits(w))
    decreases |w|
  {
    if w == "" {
      assert Escape(w) + t == t;
      assert Parse(t).Parsed? ==> Lits(w) + Parse(t).first == Parse(t).first;
    } else {
      assert Escape(w) + t == EscapeChar(w[0]) + (Escape(w[1..]) + t);
      ParseChar(w[0], Escape(w[1..]) + t);
      ParseEscaped(w[1..], t);
      AfterTwice([Lit(w[0])], Lits(w[1..]), Parse(t));
      assert Lits(w) == [Lit(w[0])] + Lits(w[1..]);
    }
  }

  lemma {:induction false} ParseGap(t: string)
    ensures Parse("\\s+" + t) == Parse(t).After([Spaces])
  {
    var s := "\\s+" + t;
    assert s[0] == '\\' && s[1] == 's' && s[2] == '+' && s[3..] == t;
  }

  lemma {:induction false} ParseAlternative(ws: seq<string>, t: string)
    requires ws != []
    ensures Parse(Alternative(ws) + t) == Parse(t).After(Nodes(ws))
    decreases |ws|
  {
    if |ws| == 1 {
      ParseEscaped(ws[0], t);
    } else {
      var rest := Alternative(ws[1..]) + t;
      assert EscapeAll(ws)[1..] == EscapeAll(ws[1..]);
      assert Alternative(ws) + t == Escape(ws[0]) + ("\\s+" + rest);
      ParseEscaped(ws[0], "\\s+" + rest);
      ParseGap(rest);
      ParseAlternative(ws[1..], t);
      AfterTwice([Spaces], Nodes(ws[1..]), Parse(t));
      AfterTwice(Lits(ws[0]), [Spaces] + Nodes(ws[1..]), Parse(t));
      assert Lits(ws[0]) + ([Spaces] + Nodes(ws[1..])) == Nodes(ws);
    }
  }

  predicate AllNonEmpty(phrases: seq<seq<string>>) {
    forall i :: 0 <= i < |phrases| ==> phrases[i] != []
  }

  function AllAlternatives(phrases: seq<seq<string>>): seq<string> {
    seq(|phrases|, i requires 0 <= i < |phrases| => Alternative(phrases[i]))
  }

  function AllNodes(phrases: seq<seq<string>>): seq<seq<Node>> {
    seq(|phrases|, i requires 0 <= i < |phrases| => Nodes(phrases[i]))
  }

  lemma {:induction false} ParseLast(p: seq<string>, close: string)
    requires p != [] && close != "" && close[0] == ')'
    ensures Parse(Alternative(p) + close) == Parsed(Nodes(p), [], close)
  {
    ParseAlternative(p, close);
    assert Nodes(p) + [] == Nodes(p);
  }

  lemma {:induction false} ParseOneMore(p: seq<string>, rest: string)
    requires p != []
    ensures var r := Parse(rest);
            Parse(Alternative(p) + ("|" + rest)) ==
              if r.Parsed? then Parsed(Nodes(p), [r.first] + r.others, r.rest) else Unsupported
  {
    ParseAlternative(p, "|" + rest);
    assert ("|" + rest)[1..] == rest;
    assert Nodes(p) + [] == Nodes(p);
  }

  lemma {:induction false} ParseAlternatives(phrases: seq<seq<string>>, close: string)
    requires phrases != [] && AllNonEmpty(phrases) && close != "" && close[0] == ')'
    ensures Parse(Join(AllAlternatives(phrases), "|") + close) ==
            Parsed(Nodes(phrases[0]), AllNodes(phrases[1..]), close)
    decreases |phrases|
  {
    var p := phrases[0];
    if |phrases| == 1 {
      ParseLast(p, close);
    } else {
      ParseAlternatives(phrases[1..], close);
      JoinOneMore(phrases, close);
      ParseOneMore(p, Join(AllAlternatives(phrases[1..]), "|") + close);
      AllNodesOneMore(phrases[1..]);
    }
  }

  lemma {:induction false} JoinOneMore(phrases: seq<seq<string>>, close: string)
    requires |phrases| > 1
    ensures Join(AllAlternatives(phrases), "|") + close ==
            Alternative(phrases[0]) + ("|" + (Join(AllAlternatives(phrases[1..]), "|") + close))
  {
    assert AllAlternatives(phrases)[1..] == AllAlternatives(phrases[1..]);
  }

  lemma {:induction false} AllNodesOneMore(phrases: seq<seq<string>>)
    requires phrases != []
    ensures AllNodes(phrases) == [Nodes(phrases[0])] + AllNodes(phrases[1..])
  {
  }

  /** Compiling the pattern text built from phrases gives back those phrases and nothing else. */
  lemma {:induction false} CompileOfPatternText(phrases: seq<seq<string>>)
    requires phrases != [] && AllNonEmpty(phrases)
    ensures Compile(PatternText(AllAlternatives(phrases))) == Some(AllNodes(phrases))
  {
    var body := Join(AllAlternatives(phrases), "|");
    var pattern := PatternText(AllAlternatives(phrases));
    assert pattern == "\\b(?:" + (body + ")\\b");
    assert pattern[..5] == "\\b(?:" && pattern[5..] == body + ")\\b";
    ParseAlternatives(phrases, ")\\b");
    AllNodesOneMore(phrases);
  }

  // ---------------------------------------------------------------------------------------
  // The backtracking matcher
  // ---------------------------------------------------------------------------------------

  function SpaceRun(cs: Chars, text: string, i: nat): (n: nat)
    ensures i + n <= |text| || n == 0
    ensures forall j :: i <= j < i + n ==> cs.space(text[j])
    ensures i + n < |text| ==> !cs.space(text[i + n])
    decreases |text| - i
  {
    if i < |text| && cs.space(text[i]) then 1 + SpaceRun(cs, text, i + 1) else 0
  }

  /** Match the nodes at `i` and then a boundary. `\s+` is greedy and gives back one at a time. */
  predicate MatchHere(cs: Chars, nodes: seq<Node>, text: string, i: nat)
    decreases |nodes|, 0
  {
    if nodes == [] then Boundary(cs, text, i)
    else
      match nodes[0]
      case Lit(c) => i < |text| && cs.fold(c) == cs.fold(text[i]) && MatchHere(cs, nodes[1..], text, i + 1)
      case Spaces => GiveBack(cs, nodes[1..], text, i, SpaceRun(cs, text, i))
  }

  predicate GiveBack(cs: Chars, rest: seq<Node>, text: string, i: nat, n: nat)
    decreases |rest|, 1, n
  {
    n > 0 && (MatchHere(cs, rest, text, i + n) || GiveBack(cs, rest, text, i, n - 1))
  }

  predicate MatchAny(cs: Chars, alternatives: seq<seq<Node>>, text: string, i: nat) {
    alternatives != [] && (MatchHere(cs, alternatives[0], text, i) || MatchAny(cs, alternatives[1..], text, i))
  }

  /** `search`: the first start position, left to right, at which a boundary and then some
      alternative, in order, matches. */
  predicate SearchFrom(cs: Chars, alternatives: seq<seq<Node>>, text: string, i: nat)
    decreases |text| - i
  {
    i <= |text| &&
    ((Boundary(cs, text, i) && MatchAny(cs, alternatives, text, i)) || SearchFrom(cs, alternatives, text, i + 1))
  }

  lemma {:induction false} MatchWord(cs: Chars, w: string, rest: seq<Node>, text: string, i: nat)
    ensures MatchHere(cs, Lits(w) + rest, text, i) <==> (WordAt(cs, w, text, i) && MatchHere(cs, rest, text, i + |w|))
    decreases |w|
  {
    if w == "" {
      assert Lits(w) + rest == rest;
    } else {
      MatchWord(cs, w[1..], rest, text, i + 1);
      var nodes := Lits(w) + rest;
      assert nodes[0] == Lit(w[0]) && nodes[1..] == Lits(w[1..]) + rest;
      assert WordAt(cs, w, text, i) <==>
             (i < |text| && cs.fold(w[0]) == cs.fold(text[i]) && WordAt(cs, w[1..], text, i + 1)) by {
        if i < |text| && cs.fold(w[0]) == cs.fold(text[i]) && WordAt(cs, w[1..], text, i + 1) {
          forall k | 0 <= k < |w|
            ensures cs.fold(w[k]) == cs.fold(text[i + k])
          {
            if k > 0 {
              assert w[1..][k - 1] == w[k] && text[(i + 1) + (k - 1)] == text[i + k];
            }
          }
        }
        if WordAt(cs, w, text, i) {
          forall k | 0 <= k < |w[1..]|
            ensures cs.fold(w[1..][k]) == cs.fold(text[i + 1 + k])
          {
            assert w[1..][k] == w[k + 1] && text[i + 1 + k] == text[i + (k + 1)];
          }
        }
      }
    }
  }

  lemma {:induction false} GiveBackTriesAll(cs: Chars, rest: seq<Node>, text: string, i: nat, n: nat)
    ensures GiveBack(cs, rest, text, i, n) <==> exists k: nat :: i < k <= i + n && MatchHere(cs, rest, text, k)
    decreases n
  {
    if n > 0 {
      GiveBackTriesAll(cs, rest, text, i, n - 1);
      if MatchHere(cs, rest, text, i + n) {
        assert i < i + n <= i + n;
      }
      if k: nat :| i < k <= i + n && MatchHere(cs, rest, text, k) {
        assert k == i + n || (i < k <= i + (n - 1) && MatchHere(cs, rest, text, k));
      }
    }
  }

  lemma {:induction false} MatchGap(cs: Chars, rest: seq<Node>, text: string, i: nat)
    ensures MatchHere(cs, [Spaces] + rest, text, i) <==>
            exists k: nat :: Gap(cs, text, i, k) && MatchHere(cs, rest, text, k)
  {
    var n := SpaceRun(cs, text, i);
    assert ([Spaces] + rest)[1..] == rest;
    GiveBackTriesAll(cs, rest, text, i, n);
    forall k: nat
      ensures Gap(cs, text, i, k) <==> i < k <= i + n
    {
    }
  }

  lemma {:induction false} BoundedPhraseUnfolds(cs: Chars, ws: seq<string>, text: string, i: nat)
    requires |ws| > 1
    ensures BoundedPhrase(cs, ws, text, i) <==>
            WordAt(cs, ws[0], text, i) &&
            exists k: nat :: Gap(cs, text, i + |ws[0]|, k) && BoundedPhrase(cs, ws[1..], text, k)
  {
    if BoundedPhrase(cs, ws, text, i) {
      var j: nat :| PhraseAt(cs, ws, text, i, j) && Boundary(cs, text, j);
      assert PhraseAt(cs, ws, text, i, j);
      var k: nat :| Gap(cs, text, i + |ws[0]|, k) && PhraseAt(cs, ws[1..], text, k, j);
      assert BoundedPhrase(cs, ws[1..], text, k);
    }
    if WordAt(cs, ws[0], text, i) {
      if k: nat :| Gap(cs, text, i + |ws[0]|, k) && BoundedPhrase(cs, ws[1..], text, k) {
        var j: nat :| PhraseAt(cs, ws[1..], text, k, j) && Boundary(cs, text, j);
        assert PhraseAt(cs, ws, text, i, j);
      }
    }
  }

  lemma {:induction false} MatchOneWord(cs: Chars, ws: seq<string>, text: string, i: nat)
    requires |ws| == 1
    ensures MatchHere(cs, Nodes(ws), text, i) <==> BoundedPhrase(cs, ws, text, i)
  {
    MatchWord(cs, ws[0], [], text, i);
    assert Lits(ws[0]) + [] == Nodes(ws);
    assert BoundedPhrase(cs, ws, text, i) <==>
           PhraseAt(cs, ws, text, i, i + |ws[0]|) && Boundary(cs, text, i + |ws[0]|);
  }

  /** Backtracking finds a phrase at `i` exactly when there is one. */
  lemma {:induction false} MatchPhrase(cs: Chars, ws: seq<string>, text: string, i: nat)
    requires ws != []
    ensures MatchHere(cs, Nodes(ws), text, i) <==> BoundedPhrase(cs, ws, text, i)
    decreases |ws|
  {
    if |ws| == 1 {
      MatchOneWord(cs, ws, text, i);
    } else {
      var rest := Nodes(ws[1..]);
      assert Nodes(ws) == Lits(ws[0]) + ([Spaces] + rest);
      MatchWord(cs, ws[0], [Spaces] + rest, text, i);
      MatchGap(cs, rest, text, i + |ws[0]|);
      forall k: nat
        ensures MatchHere(cs, rest, text, k) <==> BoundedPhrase(cs, ws[1..], text, k)
      {
        MatchPhrase(cs, ws[1..], text, k);
      }
      BoundedPhraseUnfolds(cs, ws, text, i);
    }
  }

  lemma {:induction false} MatchAnyTriesAll(cs: Chars, alternatives: seq<seq<Node>>, text: string, i: nat)
    ensures MatchAny(cs, alternatives, text, i) <==>
            exists a :: 0 <= a < |alternatives| && MatchHere(cs, alternatives[a], text, i)
    decreases |alternatives|
  {
    if alternatives != [] {
      var rest := alternatives[1..];
      MatchAnyTriesAll(cs, rest, text, i);
      if a :| 0 <= a < |rest| && MatchHere(cs, rest[a], text, i) {
        assert alternatives[a + 1] == rest[a];
      }
      if a :| 0 <= a < |alternatives| && MatchHere(cs, alternatives[a], text, i) {
        if a > 0 { assert rest[a - 1] == alternatives[a]; }
      }
    }
  }

  lemma {:induction false} SearchTriesAll(cs: Chars, alternatives: seq<seq<Node>>, text: string, i: nat)
    ensures SearchFrom(cs, alternatives, text, i) <==>
            exists k :: i <= k <= |text| && Boundary(cs, text, k) && MatchAny(cs, alternatives, text, k)
    decreases |text| - i
  {
    if i <= |text| {
      SearchTriesAll(cs, alternatives, text, i + 1);
    }
  }

  ghost predicate SomePhraseOccurs(cs: Chars, phrases: seq<seq<string>>, text: string) {
    exists a :: 0 <= a < |phrases| && Occurs(cs, phrases[a], text)
  }

  /** The search over compiled phrases succeeds iff one of them occurs. */
  lemma {:induction false} SearchMeansOccurs(cs: Chars, phrases: seq<seq<string>>, text: string)
    requires AllNonEmpty(phrases)
    ensures SearchFrom(cs, AllNodes(phrases), text, 0) <==> SomePhraseOccurs(cs, phrases, text)
  {
    var nodes := AllNodes(phrases);
    SearchTriesAll(cs, nodes, text, 0);
    if SearchFrom(cs, nodes, text, 0) {
      var i: nat :| i <= |text| && Boundary(cs, text, i) && MatchAny(cs, nodes, text, i);
      MatchAnyTriesAll(cs, nodes, text, i);
      var a :| 0 <= a < |nodes| && MatchHere(cs, nodes[a], text, i);
      MatchPhrase(cs, phrases[a], text, i);
      assert Occurs(cs, phrases[a], text);
    }
    if a :| 0 <= a < |phrases| && Occurs(cs, phrases[a], text) {
      var i: nat :| i <= |text| && Boundary(cs, text, i) && BoundedPhrase(cs, phrases[a], text, i);
      MatchPhrase(cs, phrases[a], text, i);
      assert nodes[a] == Nodes(phrases[a]);
      MatchAnyTriesAll(cs, nodes, text, i);
    }
  }

  // ---------------------------------------------------------------------------------------
  // Building and asking
  // ---------------------------------------------------------------------------------------

  function Length(s: string): int { |s| }

  /** A stable sort, longest first. */
  function LongestFirst(l: seq<string>): seq<string> {
    SortNewest(l, Length)
  }

  /** Sorting reorders the alternatives, longest first, and loses and adds none. */
  lemma {:induction false} LongestFirstSorts(l: seq<string>)
    ensures Descending(LongestFirst(l), Length) && multiset(LongestFirst(l)) == multiset(l)
  {
    SortNewestSorts(l, Length);
  }

  datatype EventRelevanceVocabulary = EventRelevanceVocabulary(pattern: Option<string>, size: nat)
  {
    predicate IsEmpty() {
      pattern.None?
    }

    predicate Matches(cs: Chars, text: string) {
      pattern.Some? && Compile(pattern.value).Some? && SearchFrom(cs, Compile(pattern.value).value, text, 0)
    }
  }

  /** Some term of the list occurs in the text; a blank term never does. */
  ghost predicate SomeTermOccurs(cs: Chars, terms: seq<string>, text: string) {
    exists k :: 0 <= k < |terms| && Occurs(cs, Words(cs, terms[k]), text)
  }

  lemma {:induction false} AlternativesInFront(p: seq<string>, l: seq<seq<string>>)
    ensures AllAlternatives([p] + l) == [Alternative(p)] + AllAlternatives(l)
  {
  }

  lemma {:induction false} InsertCarries(p: seq<string>, l: seq<seq<string>>) returns (m: seq<seq<string>>)
    ensures AllAlternatives(m) == InsertNewest(Alternative(p), AllAlternatives(l), Length)
    ensures multiset(m) == multiset(l) + multiset{p}
    decreases |l|
  {
    if l == [] || |Alternative(p)| >= |Alternative(l[0])| {
      m := [p] + l;
      AlternativesInFront(p, l);
    } else {
      var rest := InsertCarries(p, l[1..]);
      m := [l[0]] + rest;
      assert l == [l[0]] + l[1..];
      AlternativesInFront(l[0], l[1..]);
      AlternativesInFront(l[0], rest);
    }
  }

  /** Sorting the rendered alternatives is rendering some reordering of the phrases. */
  lemma {:induction false} SortCarries(phrases: seq<seq<string>>) returns (ordered: seq<seq<string>>)
    ensures AllAlternatives(ordered) == LongestFirst(AllAlternatives(phrases))
    ensures multiset(ordered) == multiset(phrases)
    decreases |phrases|
  {
    if phrases == [] {
      ordered := [];
    } else {
      var rest := SortCarries(phrases[1..]);
      ordered := InsertCarries(phrases[0], rest);
      assert phrases == [phrases[0]] + phrases[1..];
      assert AllAlternatives(phrases)[1..] == AllAlternatives(phrases[1..]);
    }
  }

  lemma {:induction false} PermutedOccur(cs: Chars, a: seq<seq<string>>, b: seq<seq<string>>, text: string)
    requires multiset(a) == multiset(b)
    ensures SomePhraseOccurs(cs, a, text) ==> SomePhraseOccurs(cs, b, text)
    ensures AllNonEmpty(a) ==> AllNonEmpty(b)
  {
    forall i | 0 <= i < |a|
      ensures exists k :: 0 <= k < |b| && b[k] == a[i]
    {
      assert a[i] in multiset(a);
      assert a[i] in b;
    }
    forall i | 0 <= i < |b|
      ensures b[i] in a
    {
      assert b[i] in multiset(b);
    }
  }

  /** Whatever the sort did, the compiled pattern matches iff one of the collected phrases occurs. */
  lemma {:induction false} SortedPatternMatches(cs: Chars, phrases: seq<seq<string>>, size: nat, text: string)
    requires phrases != [] && AllNonEmpty(phrases)
    ensures EventRelevanceVocabulary(Some(PatternText(LongestFirst(AllAlternatives(phrases)))), size).Matches(cs, text)
            <==> SomePhraseOccurs(cs, phrases, text)
  {
    var ordered := SortCarries(phrases);
    PermutedOccur(cs, phrases, ordered, text);
    PermutedOccur(cs, ordered, phrases, text);
    assert |ordered| == |multiset(ordered)| == |phrases|;
    CompileOfPatternText(ordered);
    SearchMeansOccurs(cs, ordered, text);
  }

  function Collapse(cs: Chars, term: string): string {
    Join(Words(cs, term), " ")
  }

  /** A collapsed term is empty iff the term is blank, and splits back into the term's words. */
  lemma {:induction false} CollapseKeepsWords(cs: Chars, term: string)
    requires CharsOk(cs)
    ensures Collapse(cs, term) == "" <==> Words(cs, term) == []
    ensures Words(cs, term) != [] ==> SplitBlank(Collapse(cs, term)) == Words(cs, term)
  {
    var ws := Words(cs, term);
    if ws != [] {
      GapsExist(cs, term);
      var gaps :| GapsOk(cs, gaps, ws) && term == Interleave(gaps, ws);
      assert forall i :: 0 <= i < |ws| ==> Solid(cs, ws[i]) && Blankless(ws[i]);
      SplitOfJoin(ws);
      assert ws[0] != "";
    }
  }

  /** Two terms count as one exactly when they have the same words, letter by letter once lowered, whatever
      whitespace separates them. */
  lemma {:induction false} KeysAgreeIff(cs: Chars, a: string, b: string)
    requires CharsOk(cs)
    ensures Lower(cs, Collapse(cs, a)) == Lower(cs, Collapse(cs, b)) <==>
            AllSameLowered(cs, Words(cs, a), Words(cs, b))
  {
    var x, y := Collapse(cs, a), Collapse(cs, b);
    CollapseKeepsWords(cs, a);
    CollapseKeepsWords(cs, b);
    if Lower(cs, x) == Lower(cs, y) {
      assert |x| == |Lower(cs, x)| == |y|;
      LoweredSplit(cs, x, y);
    }
    if AllSameLowered(cs, Words(cs, a), Words(cs, b)) {
      LoweredJoin(cs, Words(cs, a), Words(cs, b));
    }
  }

  function AllWords(cs: Chars, terms: seq<string>): seq<seq<string>> {
    seq(|terms|, k requires 0 <= k < |terms| => Words(cs, terms[k]))
  }

  function AllKeys(cs: Chars, terms: seq<string>): seq<string> {
    seq(|terms|, k requires 0 <= k < |terms| => Lower(cs, Collapse(cs, terms[k])))
  }

  function Picked<T>(l: seq<T>, kept: seq<nat>): seq<T>
    requires forall i :: 0 <= i < |kept| ==> kept[i] < |l|
  {
    seq(|kept|, i requires 0 <= i < |kept| => l[kept[i]])
  }

  /** A kept term has this key. */
  predicate Represented(keys: seq<string>, kept: seq<nat>, key: string) {
    exists i :: 0 <= i < |kept| && kept[i] < |keys| && keys[kept[i]] == key
  }

  /** Of the first `n` terms the loop kept those at the positions `kept`: none blank, all keys in
      `seen`, and every non-blank term's key among them. */
  ghost predicate Deduped(words: seq<seq<string>>, keys: seq<string>, n: nat, kept: seq<nat>, seen: set<string>)
    requires n <= |words| == |keys|
  {
    && (forall i :: 0 <= i < |kept| ==> kept[i] < n && words[kept[i]] != [])
    && (forall key {:trigger Represented(keys, kept, key)} :: key in seen ==> Represented(keys, kept, key))
    && (forall k :: 0 <= k < n && words[k] != [] ==> keys[k] in seen)
  }

  lemma {:induction false} SkipOne(words: seq<seq<string>>, keys: seq<string>, n: nat, kept: seq<nat>,
                                   seen: set<string>)
    requires n < |words| == |keys| && Deduped(words, keys, n, kept, seen) && (words[n] == [] || keys[n] in seen)
    ensures Deduped(words, keys, n + 1, kept, seen)
  {
  }

  lemma {:induction false} KeepOne(words: seq<seq<string>>, keys: seq<string>, n: nat, kept: seq<nat>,
                                   seen: set<string>)
    requires n < |words| == |keys| && Deduped(words, keys, n, kept, seen) && words[n] != []
    ensures Deduped(words, keys, n + 1, kept + [n], seen + {keys[n]})
  {
    var kept' := kept + [n];
    assert kept'[|kept|] == n;
    forall key | key in seen + {keys[n]}
      ensures Represented(keys, kept', key)
    {
      if key in seen {
        assert Represented(keys, kept, key);
        var i :| 0 <= i < |kept| && kept[i] < |keys| && keys[kept[i]] == key;
        assert kept'[i] == kept[i];
      }
    }
  }

  /** Dropping case-insensitive duplicates changes no answer. */
  lemma {:induction false} DedupedMeansTerms(cs: Chars, terms: seq<string>, kept: seq<nat>, seen: set<string>,
                                             text: string)
    requires CharsOk(cs) && Deduped(AllWords(cs, terms), AllKeys(cs, terms), |terms|, kept, seen)
    ensures SomePhraseOccurs(cs, Picked(AllWords(cs, terms), kept), text) <==> SomeTermOccurs(cs, terms, text)
  {
    var words, keys := AllWords(cs, terms), AllKeys(cs, terms);
    if k :| 0 <= k < |terms| && Occurs(cs, Words(cs, terms[k]), text) {
      assert words[k] != [] && keys[k] in seen && Represented(keys, kept, keys[k]);
      var i :| 0 <= i < |kept| && kept[i] < |keys| && keys[kept[i]] == keys[k];
      KeysAgreeIff(cs, terms[k], terms[kept[i]]);
      assert forall w, v :: SameLowered(cs, w, v) ==> Alike(cs, w, v);
      SameWordsOccur(cs, Words(cs, terms[k]), Words(cs, terms[kept[i]]), text);
      assert Picked(words, kept)[i] == Words(cs, terms[kept[i]]);
    }
    if i :| 0 <= i < |kept| && Occurs(cs, Picked(words, kept)[i], text) {
      assert Picked(words, kept)[i] == Words(cs, terms[kept[i]]);
    }
  }

  lemma {:induction false} PickOneMore(words: seq<seq<string>>, kept: seq<nat>, n: nat)
    requires n < |words| && forall i :: 0 <= i < |kept| ==> kept[i] < |words|
    ensures AllAlternatives(Picked(words, kept + [n])) == AllAlternatives(Picked(words, kept)) + [Alternative(words[n])]
  {
    assert Picked(words, kept + [n]) == Picked(words, kept) + [words[n]];
  }

  /** The vocabulary a list of alternatives gives. */
  function VocabularyOf(alternatives: seq<string>): EventRelevanceVocabulary {
    if alternatives == [] then EventRelevanceVocabulary(None, 0)
    else EventRelevanceVocabulary(Some(PatternText(LongestFirst(alternatives))), |alternatives|)
  }

  /** Whatever the loop kept, the vocabulary made from it answers for all the terms. */
  lemma {:induction false} KeptAnswersForAll(cs: Chars, terms: seq<string>, kept: seq<nat>, seen: set<string>)
    requires CharsOk(cs) && Deduped(AllWords(cs, terms), AllKeys(cs, terms), |terms|, kept, seen)
    ensures var v := VocabularyOf(AllAlternatives(Picked(AllWords(cs, terms), kept)));
            forall text :: v.Matches(cs, text) <==> SomeTermOccurs(cs, terms, text)
  {
    var phrases := Picked(AllWords(cs, terms), kept);
    var v := VocabularyOf(AllAlternatives(phrases));
    forall text
      ensures v.Matches(cs, text) <==> SomeTermOccurs(cs, terms, text)
    {
      DedupedMeansTerms(cs, terms, kept, seen, text);
      if kept != [] {
        SortedPatternMatches(cs, phrases, |kept|, text);
      }
    }
  }

  lemma {:induction false} KeptNoneIffAllBlank(cs: Chars, terms: seq<string>, kept: seq<nat>, seen: set<string>)
    requires Deduped(AllWords(cs, terms), AllKeys(cs, terms), |terms|, kept, seen)
    ensures kept == [] <==> forall k :: 0 <= k < |terms| ==> Words(cs, terms[k]) == []
  {
    var words, keys := AllWords(cs, terms), AllKeys(cs, terms);
    if kept == [] {
      forall k | 0 <= k < |terms|
        ensures words[k] == Words(cs, terms[k]) == []
      {
        assert Represented(keys, kept, keys[k]) ==> |kept| > 0;
        assert keys[k] !in seen;
      }
    } else {
      assert words[kept[0]] == Words(cs, terms[kept[0]]);
    }
  }

  /** The case-insensitive keys of the non-blank terms. */
  function DistinctKeys(cs: Chars, terms: seq<string>): set<string> {
    set k | 0 <= k < |terms| && Words(cs, terms[k]) != [] :: Lower(cs, Collapse(cs, terms[k]))
  }

  lemma {:induction false} SeenIsDistinctKeys(cs: Chars, terms: seq<string>, kept: seq<nat>, seen: set<string>)
    requires Deduped(AllWords(cs, terms), AllKeys(cs, terms), |terms|, kept, seen)
    ensures seen == DistinctKeys(cs, terms)
  {
    var words, keys := AllWords(cs, terms), AllKeys(cs, terms);
    forall key | key in seen
      ensures key in DistinctKeys(cs, terms)
    {
      assert Represented(keys, kept, key);
      var i :| 0 <= i < |kept| && kept[i] < |keys| && keys[kept[i]] == key;
      assert words[kept[i]] == Words(cs, terms[kept[i]]);
    }
    forall k | 0 <= k < |terms| && Words(cs, terms[k]) != []
      ensures Lower(cs, Collapse(cs, terms[k])) in seen
    {
      assert words[k] != [] && keys[k] in seen;
    }
  }

  /** The keys seen among the first `n` terms. */
  function SeenOf(words: seq<seq<string>>, keys: seq<string>, n: nat): set<string>
    requires n <= |words| == |keys|
  {
    if n == 0 then {}
    else if words[n - 1] == [] then SeenOf(words, keys, n - 1)
    else SeenOf(words, keys, n - 1) + {keys[n - 1]}
  }

  /** The positions kept: not blank, and the first with their key. */
  function KeptOf(words: seq<seq<string>>, keys: seq<string>, n: nat): (kept: seq<nat>)
    requires n <= |words| == |keys|
    ensures forall i :: 0 <= i < |kept| ==> kept[i] < n
  {
    if n == 0 then []
    else if words[n - 1] == [] || keys[n - 1] in SeenOf(words, keys, n - 1) then KeptOf(words, keys, n - 1)
    else KeptOf(words, keys, n - 1) + [n - 1]
  }

  lemma {:induction false} OnePerKey(words: seq<seq<string>>, keys: seq<string>, n: nat)
    requires n <= |words| == |keys|
    ensures |KeptOf(words, keys, n)| == |SeenOf(words, keys, n)|
  {
    if n > 0 {
      OnePerKey(words, keys, n - 1);
      assert keys[n - 1] in SeenOf(words, keys, n - 1) ==>
          SeenOf(words, keys, n - 1) + {keys[n - 1]} == SeenOf(words, keys, n - 1);
    }
  }

  lemma {:induction false} KeptIsDeduped(words: seq<seq<string>>, keys: seq<string>, n: nat)
    requires n <= |words| == |keys|
    ensures Deduped(words, keys, n, KeptOf(words, keys, n), SeenOf(words, keys, n))
  {
    if n > 0 {
      KeptIsDeduped(words, keys, n - 1);
      var kept, seen := KeptOf(words, keys, n - 1), SeenOf(words, keys, n - 1);
      if words[n - 1] == [] {
        SkipOne(words, keys, n - 1, kept, seen);
      } else if keys[n - 1] in seen {
        assert seen + {keys[n - 1]} == seen;
        SkipOne(words, keys, n - 1, kept, seen);
      } else {
        KeepOne(words, keys, n - 1, kept, seen);
      }
    }
  }

  /** The loop of `build`: the rendered alternatives of the kept terms, in the order of the terms. */
  method CollectAlternatives(cs: Chars, terms: seq<string>) returns (alternatives: seq<string>)
    requires CharsOk(cs)
    ensures var words := AllWords(cs, terms);
            var kept := KeptOf(words, AllKeys(cs, terms), |terms|);
            alternatives == AllAlternatives(Picked(words, kept))
  {
    alternatives := [];
    var seen: set<string> := {};
    ghost var words, keys := AllWords(cs, terms), AllKeys(cs, terms);
    for n := 0 to |terms|
      invariant seen == SeenOf(words, keys, n)
      invariant alternatives == AllAlternatives(Picked(words, KeptOf(words, keys, n)))
    {
      var collapsed := Collapse(cs, terms[n]);
      CollapseKeepsWords(cs, terms[n]);
      if collapsed == "" {
        continue;
      }
      var key := Lower(cs, collapsed);
      if key in seen {
        assert seen + {key} == seen;
        continue;
      }
      PickOneMore(words, KeptOf(words, keys, n), n);
      seen := seen + {key};
      var escaped := EscapeAll(SplitBlank(collapsed));
      alternatives := alternatives + [Join(escaped, "\\s+")];
    }
  }

  /** The vocabulary matches a text iff some term occurs in it; it is empty iff every term is blank. */
  method Build(cs: Chars, terms: seq<string>) returns (v: EventRelevanceVocabulary)
    requires CharsOk(cs)
    ensures forall text :: v.Matches(cs, text) <==> SomeTermOccurs(cs, terms, text)
    ensures v.IsEmpty() <==> forall k :: 0 <= k < |terms| ==> Words(cs, terms[k]) == []
    ensures v.size == |DistinctKeys(cs, terms)|
  {
    var alternatives := CollectAlternatives(cs, terms);
    ghost var words, keys := AllWords(cs, terms), AllKeys(cs, terms);
    ghost var kept, seen := KeptOf(words, keys, |terms|), SeenOf(words, keys, |terms|);
    KeptIsDeduped(words, keys, |terms|);
    OnePerKey(words, keys, |terms|);
    KeptAnswersForAll(cs, terms, kept, seen);
    KeptNoneIffAllBlank(cs, terms, kept, seen);
    SeenIsDistinctKeys(cs, terms, kept, seen);
    assert |alternatives| == |kept|;
    if |alternatives| == 0 {
      v := EventRelevanceVocabulary(None, 0);
    } else {
      v := EventRelevanceVocabulary(Some(PatternText(LongestFirst(alternatives))), |alternatives|);
    }
    assert v == VocabularyOf(alternatives);
  }
}
