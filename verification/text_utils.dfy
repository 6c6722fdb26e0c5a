/** The flashcard generator of lib/textUtils.ts: turns the text of a note into
    front/back cards by a separator rule, a heading/body rule and a
    placeholder fallback. */
module TextUtils {
  import opened Types
  import opened Strings

  /** The separator tokens of the pattern `(:|-|=>)`. */
  datatype Separator = Colon | Dash | Arrow
  {
    function Token(): (t: string)
      ensures t != [] && NoOuterSpace(t)
    {
      match this
      case Colon => ":"
      case Dash => "-"
      case Arrow => "=>"
    }
  }

  /** Where the pattern matched a line, and which token it matched. */
  datatype SeparatorMatch = SeparatorMatch(pos: nat, sep: Separator)

  /** A previous line is a heading only when its trimmed length is below this. */
  const HeadingLimit := 50

  /** The front of every fallback card. */
  const Placeholder := "..."

  /** The token the pattern accepts at index `i` of `s`: the alternatives are
      tried in the order `:`, `-`, `=>`, and at most one can match. */
  function SeparatorAt(s: string, i: nat): Option<Separator>
    requires i < |s|
  {
    if s[i] == ':' then Some(Colon)
    else if s[i] == '-' then Some(Dash)
    else if s[i] == '=' && i + 1 < |s| && s[i + 1] == '>' then Some(Arrow)
    else None
  }

  /** The pattern accepts a token at `i` exactly when that token occurs there. */
  lemma SeparatorAtIsOccurrence(s: string, i: nat, sep: Separator)
    requires i < |s|
    ensures SeparatorAt(s, i) == Some(sep) <==> OccursAt(s, sep.Token(), i)
  {
    var t := sep.Token();
    if OccursAt(s, t, i) {
      assert s[i] == s[i..i + |t|][0];
      if sep == Arrow {
        assert s[i + 1] == s[i..i + |t|][1];
      }
    }
    if SeparatorAt(s, i) == Some(sep) {
      if sep == Arrow {
        assert s[i..i + 2] == [s[i], s[i + 1]];
      } else {
        assert s[i..i + 1] == [s[i]];
      }
    }
  }

  function FindSeparatorFrom(s: string, i: nat): (r: Option<SeparatorMatch>)
    requires i <= |s|
    ensures r.Some? ==> i <= r.value.pos && r.value.pos + |r.value.sep.Token()| <= |s|
    decreases |s| - i
  {
    if i == |s| then None
    else
      match SeparatorAt(s, i)
      case Some(sep) => Some(SeparatorMatch(i, sep))
      case None => FindSeparatorFrom(s, i + 1)
  }

  lemma {:induction false} SearchFrom(s: string, i: nat)
    requires i <= |s|
    ensures var r := FindSeparatorFrom(s, i);
      && (r.Some? ==> i <= r.value.pos < |s| && SeparatorAt(s, r.value.pos) == Some(r.value.sep))
      && (forall q :: i <= q < |s| && (r.None? || q < r.value.pos) ==> SeparatorAt(s, q).None?)
    decreases |s| - i
  {
    if i < |s| && SeparatorAt(s, i).None? {
      SearchFrom(s, i + 1);
    }
  }

  /** `line.match(/(:|-|=>)/)`: the leftmost occurrence of any of the three
      tokens (see FindSeparatorIsLeftmost). */
  function FindSeparator(line: string): (r: Option<SeparatorMatch>)
    ensures r.Some? ==> r.value.pos + |r.value.sep.Token()| <= |line|
  {
    FindSeparatorFrom(line, 0)
  }

  /** The match is an occurrence of its token, no token of any kind starts
      before it, and when there is no match no token occurs in the line. */
  lemma FindSeparatorIsLeftmost(line: string)
    ensures var r := FindSeparator(line);
      && (r.Some? ==> r.value.pos < |line| && OccursAt(line, r.value.sep.Token(), r.value.pos))
      && (forall q, t: Separator :: 0 <= q < |line| && (r.None? || q < r.value.pos)
                                   ==> !OccursAt(line, t.Token(), q))
  {
    var r := FindSeparator(line);
    SearchFrom(line, 0);
    if r.Some? {
      SeparatorAtIsOccurrence(line, r.value.pos, r.value.sep);
    }
    forall q, t: Separator | 0 <= q < |line| && (r.None? || q < r.value.pos)
      ensures !OccursAt(line, t.Token(), q)
    {
      SeparatorAtIsOccurrence(line, q, t);
    }
  }

  /** `parts.map(p => p.trim())`. */
  function TrimEach(parts: seq<string>): seq<string>
  {
    seq(|parts|, k requires 0 <= k < |parts| => Trim(parts[k]))
  }

  /** The card a separator line yields, if any (lines 12-21). */
  function SeparatorCard(line: string, noteId: int): (r: Option<Card>)
    ensures r.Some? ==> r.value.noteId == noteId && r.value.front != [] && r.value.back != []
  {
    match FindSeparator(line)
    case None => None
    case Some(m) =>
      var separator := m.sep.Token();
      var parts := TrimEach(Split(line, separator));
      if |parts| >= 2 && parts[0] != [] && parts[1] != [] then
        JoinStartsWithFirst(parts[1..], separator);
        Some(Card(noteId, parts[0], Join(parts[1..], separator)))
      else None
  }

  lemma JoinStartsWithFirst(parts: seq<string>, sep: string)
    requires parts != []
    ensures |Join(parts, sep)| >= |parts[0]|
  {
  }

  /** What a separator line yields, in terms of its leftmost separator at `p`:
      a card exactly when the trimmed text before `p` and the trimmed first
      piece after it are both non-empty; the front is the former and the back
      is every piece after `p`, trimmed, joined by the bare token, so the
      white space around inner separators is lost. */
  lemma SeparatorCardShape(line: string, noteId: int)
    requires FindSeparator(line).Some?
    ensures var m := FindSeparator(line).value;
      var token := m.sep.Token();
      var front := Trim(line[..m.pos]);
      var rest := Split(line[m.pos + |token|..], token);
      && (SeparatorCard(line, noteId).Some? <==> front != [] && Trim(rest[0]) != [])
      && (SeparatorCard(line, noteId).Some? ==>
            SeparatorCard(line, noteId).value == Card(noteId, front, Join(TrimEach(rest), token)))
  {
    var m := FindSeparator(line).value;
    var token := m.sep.Token();
    var rest := Split(line[m.pos + |token|..], token);
    SplitAtSeparator(line);
    var parts := TrimEach([line[..m.pos]] + rest);
    assert |parts| == 1 + |rest|;
    assert parts[0] == Trim(line[..m.pos]);
    assert parts[1] == Trim(rest[0]);
    assert parts[1..] == TrimEach(rest);
  }

  /** Splitting a line at its separator token: the first piece is the text
      before the leftmost match. */
  lemma SplitAtSeparator(line: string)
    requires FindSeparator(line).Some?
    ensures var m := FindSeparator(line).value;
      var token := m.sep.Token();
      Split(line, token) == [line[..m.pos]] + Split(line[m.pos + |token|..], token)
  {
    var m := FindSeparator(line).value;
    var token := m.sep.Token();
    FindSeparatorIsLeftmost(line);
    assert OccursAt(line, token, m.pos);
    assert forall q :: 0 <= q < m.pos ==> !OccursAt(line, m.sep.Token(), q);
    SplitAtFirst(line, token, m.pos);
  }

  predicate EndsWithTerminal(s: string)
  {
    s != [] && s[|s| - 1] in {'.', '?', '!'}
  }

  /** The test a previous line must pass to be taken as a heading (line 27). */
  predicate IsHeading(prev: string)
  {
    |prev| < HeadingLimit && !EndsWithTerminal(prev)
  }

  ghost predicate HasFront(cards: seq<Card>, front: string)
  {
    exists k :: 0 <= k < |cards| && cards[k].front == front
  }

  /** `cards.some(c => c.front === front)`. */
  method SomeFront(cards: seq<Card>, front: string) returns (found: bool)
    ensures found <==> HasFront(cards, front)
  {
    found := false;
    var k := 0;
    while k < |cards| && !found
      invariant 0 <= k <= |cards|
      invariant found <==> exists j :: 0 <= j < k && cards[j].front == front
    {
      found := cards[k].front == front;
      k := k + 1;
    }
  }

  /** The lines the generator reads: `split('\n')` without the blank ones. */
  function NonBlankLines(lines: seq<string>): (r: seq<string>)
    ensures |r| <= |lines|
    ensures forall x :: x in r <==> x in lines && Trim(x) != []
  {
    if lines == [] then []
    else (if Trim(lines[0]) != [] then [lines[0]] else []) + NonBlankLines(lines[1..])
  }

  ghost function Lines(text: string): seq<string>
  {
    NonBlankLines(Split(text, "\n"))
  }

  /** What one iteration of the main loop reads from a line: its trimmed
      text, whether the pattern matched it, and the card the separator rule
      makes of it. */
  datatype LineView = LineView(text: string, hasSeparator: bool, separatorCard: Option<Card>)

  function View(line: string, noteId: int): (v: LineView)
    ensures v.separatorCard.Some? ==> v.hasSeparator
  {
    var text := Trim(line);
    LineView(text, FindSeparator(text).Some?, SeparatorCard(text, noteId))
  }

  ghost function Views(lines: seq<string>, noteId: int): (vs: seq<LineView>)
    ensures |vs| == |lines|
  {
    seq(|lines|, k requires 0 <= k < |lines| => View(lines[k], noteId))
  }

  /** One iteration of the main loop over line `i`, given the cards so far:
      a separator line yields its separator card or nothing; any other line
      after the first pairs with a previous line that looks like a heading,
      unless a card with that front was already emitted. */
  ghost function Step(views: seq<LineView>, noteId: int, i: nat, cards: seq<Card>): seq<Card>
    requires i < |views|
  {
    var line := views[i];
    if line.hasSeparator then
      match line.separatorCard
      case Some(c) => cards + [c]
      case None => cards
    else if i > 0 && IsHeading(views[i - 1].text) && !HasFront(cards, views[i - 1].text) then
      cards + [Card(noteId, views[i - 1].text, line.text)]
    else
      cards
  }

  /** The cards the main loop has emitted after its first `n` iterations. */
  ghost function MainPass(views: seq<LineView>, noteId: int, n: nat): seq<Card>
    requires n <= |views|
  {
    if n == 0 then [] else Step(views, noteId, n - 1, MainPass(views, noteId, n - 1))
  }

  /** The fallback: one placeholder card per line, the line kept untrimmed. */
  ghost function Placeholders(lines: seq<string>, noteId: int): (r: seq<Card>)
    ensures |r| == |lines|
    ensures forall k :: 0 <= k < |lines| ==> r[k] == Card(noteId, Placeholder, lines[k])
  {
    if lines == [] then []
    else Placeholders(lines[..|lines| - 1], noteId) + [Card(noteId, Placeholder, lines[|lines| - 1])]
  }

  /** The cards of the main pass over the whole text. */
  ghost function MainCards(text: string, noteId: int): seq<Card>
  {
    var lines := Lines(text);
    MainPass(Views(lines, noteId), noteId, |lines|)
  }

  /** What `generateFlashcardsFromText(text, noteId)` returns. */
  ghost function Generate(text: string, noteId: int): seq<Card>
  {
    var cards := MainCards(text, noteId);
    if cards == [] then Placeholders(Lines(text), noteId) else cards
  }

  /** `generateFlashcardsFromText`: the main loop pushes at most one card per
      line; if it pushed none, every line becomes a placeholder card. */
  method GenerateFlashcardsFromText(text: string, noteId: int) returns (cards: seq<Card>)
    ensures cards == Generate(text, noteId)
  {
    cards := [];
    var lines := NonBlankLines(Split(text, "\n"));
    for i := 0 to |lines|
      invariant cards == MainPass(Views(lines, noteId), noteId, i)
    {
      cards := ProcessLine(lines, noteId, i, cards);
    }
    assert lines == Lines(text);
    assert cards == MainCards(text, noteId);
    if |cards| == 0 {
      for i := 0 to |lines|
        invariant cards == Placeholders(lines[..i], noteId)
      {
        assert lines[..i + 1][..i] == lines[..i];
        cards := cards + [Card(noteId, Placeholder, lines[i])];
      }
      assert lines[..|lines|] == lines;
    }
  }

  /** The body of the main loop for line `i`: the separator rule, else the
      heading rule with its duplicate-front check. */
  method ProcessLine(lines: seq<string>, noteId: int, i: nat, before: seq<Card>) returns (cards: seq<Card>)
    requires i < |lines|
    ensures cards == Step(Views(lines, noteId), noteId, i, before)
  {
    ghost var views := Views(lines, noteId);
    cards := before;
    var line := Trim(lines[i]);
    assert views[i] == View(lines[i], noteId);
    var separatorMatch := FindSeparator(line);
    if separatorMatch.Some? {
      var separator := separatorMatch.value.sep.Token();
      var parts := TrimEach(Split(line, separator));
      if |parts| >= 2 && parts[0] != [] && parts[1] != [] {
        cards := cards + [Card(noteId, parts[0], Join(parts[1..], separator))];
        assert SeparatorCard(line, noteId) == Some(Card(noteId, parts[0], Join(parts[1..], separator)));
      } else {
        assert SeparatorCard(line, noteId) == None;
      }
    } else if i > 0 {
      var prevLine := Trim(lines[i - 1]);
      assert views[i - 1] == View(lines[i - 1], noteId);
      if |prevLine| < HeadingLimit && !EndsWithTerminal(prevLine) {
        var duplicate := SomeFront(cards, prevLine);
        if !duplicate {
          cards := cards + [Card(noteId, prevLine, line)];
        }
      }
    }
  }

  // ---------------------------------------------------------------------
  // Properties of the generator

  /** The result is empty exactly when every line of the text is blank. */
  lemma GenerateEmptyIffBlank(text: string, noteId: int)
    ensures Generate(text, noteId) == [] <==> forall x :: x in Split(text, "\n") ==> Trim(x) == []
  {
    var lines := Lines(text);
    if lines != [] {
      assert lines[0] in lines;
      if MainCards(text, noteId) == [] {
        assert |Placeholders(lines, noteId)| == |lines|;
      }
    }
  }

  lemma {:induction false} MainPassOwnedBy(views: seq<LineView>, noteId: int, n: nat)
    requires n <= |views|
    requires forall i :: 0 <= i < |views| && views[i].separatorCard.Some? ==>
               views[i].separatorCard.value.noteId == noteId
    ensures forall c :: c in MainPass(views, noteId, n) ==> c.noteId == noteId
  {
    if n > 0 {
      MainPassOwnedBy(views, noteId, n - 1);
    }
  }

  /** Every card carries the note id it was generated for. */
  lemma GenerateOwnedBy(text: string, noteId: int)
    ensures forall c :: c in Generate(text, noteId) ==> c.noteId == noteId
  {
    var lines := Lines(text);
    MainPassOwnedBy(Views(lines, noteId), noteId, |lines|);
  }

  /** Each iteration leaves the cards so far in place and adds at most one. */
  lemma MainPassStep(views: seq<LineView>, noteId: int, n: nat)
    requires n < |views|
    ensures var before, after := MainPass(views, noteId, n), MainPass(views, noteId, n + 1);
      |before| <= |after| <= |before| + 1 && after[..|before|] == before
  {
  }

  /** Cards come out in line order: an earlier stage of the loop is a prefix
      of a later one, which has at most one more card per line read. */
  lemma {:induction false} MainPassPrefix(views: seq<LineView>, noteId: int, i: nat, j: nat)
    requires i <= j <= |views|
    ensures |MainPass(views, noteId, i)| <= |MainPass(views, noteId, j)| <= |MainPass(views, noteId, i)| + (j - i)
    ensures MainPass(views, noteId, j)[..|MainPass(views, noteId, i)|] == MainPass(views, noteId, i)
    decreases j - i
  {
    if i < j {
      MainPassStep(views, noteId, i);
      MainPassPrefix(views, noteId, i + 1, j);
    }
  }

  /** The main pass never has more cards than the text has non-blank lines. */
  lemma MainPassAtMostOnePerLine(text: string, noteId: int)
    ensures |MainCards(text, noteId)| <= |Lines(text)|
  {
    var lines := Lines(text);
    MainPassPrefix(Views(lines, noteId), noteId, 0, |lines|);
  }

  /** `c` is the card that separator line `i < n` yields. */
  ghost predicate FromSeparatorLine(views: seq<LineView>, n: nat, c: Card)
    requires n <= |views|
  {
    exists i :: 0 <= i < n && views[i].hasSeparator && views[i].separatorCard == Some(c)
  }

  /** `c` pairs a heading line `i - 1` with the separator-free line `i < n`
      right after it; the first line is never such a body. */
  ghost predicate FromHeadingPair(views: seq<LineView>, noteId: int, n: nat, c: Card)
    requires n <= |views|
  {
    exists i :: 0 < i < n && !views[i].hasSeparator && IsHeading(views[i - 1].text)
                && c == Card(noteId, views[i - 1].text, views[i].text)
  }

  lemma FromSeparatorLineWiden(views: seq<LineView>, m: nat, n: nat, c: Card)
    requires m <= n <= |views| && FromSeparatorLine(views, m, c)
    ensures FromSeparatorLine(views, n, c)
  {
    var i :| 0 <= i < m && views[i].hasSeparator && views[i].separatorCard == Some(c);
    assert 0 <= i < n;
  }

  lemma FromHeadingPairWiden(views: seq<LineView>, noteId: int, m: nat, n: nat, c: Card)
    requires m <= n <= |views| && FromHeadingPair(views, noteId, m, c)
    ensures FromHeadingPair(views, noteId, n, c)
  {
    var i :| 0 < i < m && !views[i].hasSeparator && IsHeading(views[i - 1].text)
             && c == Card(noteId, views[i - 1].text, views[i].text);
    assert 0 < i < n;
  }

  /** Every card of the main pass is either the card of a separator line or a
      heading paired with the next line, which has no separator. */
  lemma {:induction false} MainPassProvenance(views: seq<LineView>, noteId: int, n: nat)
    requires n <= |views|
    ensures forall c :: c in MainPass(views, noteId, n) ==>
              FromSeparatorLine(views, n, c) || FromHeadingPair(views, noteId, n, c)
  {
    if n > 0 {
      MainPassProvenance(views, noteId, n - 1);
      var before := MainPass(views, noteId, n - 1);
      forall c | c in MainPass(views, noteId, n)
        ensures FromSeparatorLine(views, n, c) || FromHeadingPair(views, noteId, n, c)
      {
        if c in before {
          if FromSeparatorLine(views, n - 1, c) {
            FromSeparatorLineWiden(views, n - 1, n, c);
          } else {
            FromHeadingPairWiden(views, noteId, n - 1, n, c);
          }
        } else if views[n - 1].hasSeparator {
          assert views[n - 1].separatorCard == Some(c);
        } else {
          assert c == Card(noteId, views[n - 2].text, views[n - 1].text);
        }
      }
    }
  }

  /** The same in terms of the text: every card of the main pass is the
      separator card of one of its non-blank lines, or pairs the trimmed
      line before a separator-free line, which passes the heading test, with
      that trimmed line. */
  lemma MainCardsProvenance(text: string, noteId: int)
    ensures var lines := Lines(text);
      forall c :: c in MainCards(text, noteId) ==>
        || (exists i :: 0 <= i < |lines| && FindSeparator(Trim(lines[i])).Some?
                        && SeparatorCard(Trim(lines[i]), noteId) == Some(c))
        || (exists i :: 0 < i < |lines| && FindSeparator(Trim(lines[i])).None?
                        && IsHeading(Trim(lines[i - 1]))
                        && c == Card(noteId, Trim(lines[i - 1]), Trim(lines[i])))
  {
    var lines := Lines(text);
    var views := Views(lines, noteId);
    MainPassProvenance(views, noteId, |lines|);
    assert MainCards(text, noteId) == MainPass(views, noteId, |lines|);
    forall c | c in MainCards(text, noteId)
      ensures || (exists i :: 0 <= i < |lines| && FindSeparator(Trim(lines[i])).Some?
                              && SeparatorCard(Trim(lines[i]), noteId) == Some(c))
              || (exists i :: 0 < i < |lines| && FindSeparator(Trim(lines[i])).None?
                              && IsHeading(Trim(lines[i - 1]))
                              && c == Card(noteId, Trim(lines[i - 1]), Trim(lines[i])))
    {
      if FromSeparatorLine(views, |lines|, c) {
        SeparatorLineOfView(lines, noteId, c);
      } else {
        HeadingPairOfView(lines, noteId, c);
      }
    }
  }

  lemma SeparatorLineOfView(lines: seq<string>, noteId: int, c: Card)
    requires FromSeparatorLine(Views(lines, noteId), |lines|, c)
    ensures exists i :: 0 <= i < |lines| && FindSeparator(Trim(lines[i])).Some?
                        && SeparatorCard(Trim(lines[i]), noteId) == Some(c)
  {
    var views := Views(lines, noteId);
    var i :| 0 <= i < |lines| && views[i].hasSeparator && views[i].separatorCard == Some(c);
    assert views[i] == View(lines[i], noteId);
  }

  lemma HeadingPairOfView(lines: seq<string>, noteId: int, c: Card)
    requires FromHeadingPair(Views(lines, noteId), noteId, |lines|, c)
    ensures exists i :: 0 < i < |lines| && FindSeparator(Trim(lines[i])).None?
                        && IsHeading(Trim(lines[i - 1]))
                        && c == Card(noteId, Trim(lines[i - 1]), Trim(lines[i]))
  {
    var views := Views(lines, noteId);
    var i :| 0 < i < |lines| && !views[i].hasSeparator && IsHeading(views[i - 1].text)
             && c == Card(noteId, views[i - 1].text, views[i].text);
    assert views[i] == View(lines[i], noteId);
    assert views[i - 1] == View(lines[i - 1], noteId);
  }

  /** A card whose front was already emitted can only be a separator card:
      the heading rule checks for that front first. */
  lemma NewCardWithKnownFront(views: seq<LineView>, noteId: int, i: nat)
    requires i < |views|
    requires var before, after := MainPass(views, noteId, i), MainPass(views, noteId, i + 1);
      |after| > |before| && HasFront(before, after[|before|].front)
    ensures var before, after := MainPass(views, noteId, i), MainPass(views, noteId, i + 1);
      views[i].hasSeparator && views[i].separatorCard == Some(after[|before|])
  {
  }

  /** No heading pairing repeats a front already emitted: when two cards share
      a front, the later one is the card of a separator line. */
  lemma {:induction false} RepeatedFrontComesFromSeparator(views: seq<LineView>, noteId: int, n: nat)
    requires n <= |views|
    ensures var cards := MainPass(views, noteId, n);
      forall j, k :: 0 <= j < k < |cards| && cards[j].front == cards[k].front ==>
        FromSeparatorLine(views, n, cards[k])
  {
    if n > 0 {
      RepeatedFrontComesFromSeparator(views, noteId, n - 1);
      var before := MainPass(views, noteId, n - 1);
      var cards := MainPass(views, noteId, n);
      MainPassStep(views, noteId, n - 1);
      forall j, k | 0 <= j < k < |cards| && cards[j].front == cards[k].front
        ensures FromSeparatorLine(views, n, cards[k])
      {
        assert cards[j] == before[j];
        if k < |before| {
          assert cards[k] == before[k];
          FromSeparatorLineWiden(views, n - 1, n, cards[k]);
        } else {
          assert HasFront(before, cards[k].front);
          NewCardWithKnownFront(views, noteId, n - 1);
          assert views[n - 1].separatorCard == Some(cards[k]);
        }
      }
    }
  }

  /** The heading rule fires on a separator-free line after a heading exactly
      when no card emitted so far has the heading as its front. */
  lemma HeadingPairing(views: seq<LineView>, noteId: int, i: nat)
    requires 0 < i < |views|
    requires !views[i].hasSeparator && IsHeading(views[i - 1].text)
    ensures var prev, before := views[i - 1].text, MainPass(views, noteId, i);
      MainPass(views, noteId, i + 1)
        == if HasFront(before, prev) then before else before + [Card(noteId, prev, views[i].text)]
  {
  }

  /** A separator line yields its own card or nothing; the line before it
      plays no part. */
  lemma SeparatorLineStep(views: seq<LineView>, noteId: int, i: nat)
    requires i < |views| && views[i].hasSeparator
    ensures var before := MainPass(views, noteId, i);
      MainPass(views, noteId, i + 1)
        == match views[i].separatorCard
           case Some(c) => before + [c]
           case None => before
  {
  }

  /** The fallback runs only when the main pass emitted nothing, and then
      gives one placeholder card per line, in order, with the untrimmed line
      as its back. */
  lemma Fallback(text: string, noteId: int)
    ensures var lines, main := Lines(text), MainCards(text, noteId);
      && (main != [] ==> Generate(text, noteId) == main)
      && (main == [] ==>
            |Generate(text, noteId)| == |lines| &&
            forall k :: 0 <= k < |lines| ==> Generate(text, noteId)[k] == Card(noteId, Placeholder, lines[k]))
  {
  }

  /** The front of a separator card is a trimmed piece and its back joins
      trimmed pieces with a token that has no white space at its ends, so
      trimming either one again changes nothing. */
  lemma SeparatorCardTrimmed(line: string, noteId: int)
    ensures var r := SeparatorCard(line, noteId);
      r.Some? ==> Trim(r.value.front) == r.value.front && Trim(r.value.back) == r.value.back
  {
    match FindSeparator(line)
    case None =>
    case Some(m) =>
      var separator := m.sep.Token();
      var pieces := Split(line, separator);
      var parts := TrimEach(pieces);
      if |parts| >= 2 && parts[0] != [] && parts[1] != [] {
        forall k | 0 <= k < |parts[1..]|
          ensures NoOuterSpace(parts[1..][k])
        {
          TrimSpec(pieces[k + 1]);
        }
        JoinNoOuterSpace(parts[1..], separator);
        TrimFixed(Join(parts[1..], separator));
        TrimIdempotent(pieces[0]);
      }
  }

  /** A line the generator reads is not empty, and neither is its trim. */
  lemma ReadLineNonEmpty(pieces: seq<string>, lines: seq<string>, k: int)
    requires lines == NonBlankLines(pieces) && 0 <= k < |lines|
    ensures lines[k] != [] && Trim(lines[k]) != []
  {
    assert lines[k] in lines;
  }

  /** Every card of the main pass has a non-empty front and back, both
      already trimmed: trimming either one again changes nothing. */
  lemma MainCardsTrimmed(text: string, noteId: int)
    ensures forall c :: c in MainCards(text, noteId) ==>
              && c.front != [] && c.back != []
              && Trim(c.front) == c.front && Trim(c.back) == c.back
  {
    var lines := Lines(text);
    MainCardsProvenance(text, noteId);
    forall c | c in MainCards(text, noteId)
      ensures && c.front != [] && c.back != []
              && Trim(c.front) == c.front && Trim(c.back) == c.back
    {
      if i :| 0 <= i < |lines| && FindSeparator(Trim(lines[i])).Some?
              && SeparatorCard(Trim(lines[i]), noteId) == Some(c) {
        SeparatorCardTrimmed(Trim(lines[i]), noteId);
      } else {
        var i :| 0 < i < |lines| && FindSeparator(Trim(lines[i])).None?
                 && IsHeading(Trim(lines[i - 1]))
                 && c == Card(noteId, Trim(lines[i - 1]), Trim(lines[i]));
        ReadLineNonEmpty(Split(text, "\n"), lines, i);
        ReadLineNonEmpty(Split(text, "\n"), lines, i - 1);
        TrimIdempotent(lines[i]);
        TrimIdempotent(lines[i - 1]);
      }
    }
  }

  /** Every card the generator returns has a non-empty front and back. */
  lemma GenerateCardsNonEmpty(text: string, noteId: int)
    ensures forall c :: c in Generate(text, noteId) ==> c.front != [] && c.back != []
  {
    var lines := Lines(text);
    MainCardsTrimmed(text, noteId);
    if MainCards(text, noteId) == [] {
      forall c | c in Generate(text, noteId)
        ensures c.front != [] && c.back != []
      {
        var k :| 0 <= k < |lines| && Generate(text, noteId)[k] == c;
        ReadLineNonEmpty(Split(text, "\n"), lines, k);
      }
    }
  }
}
