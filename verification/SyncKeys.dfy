/**
 What clearing sync_repo blocks does to parent keys at any depth, as their lines show it: a key with nothing after its
 colon but anchors, tags and a comment has for its value the lines indented below it, or the items of a sequence at
 its own column.
 */
module SyncKeys {
  import opened SyncRepo
  import opened Wrappers

  // ---- keys and their values -----------------------------------------------------------------------------

  function Indent(line: string): nat {
    |line| - |TrimStart(line)|
  }

  /** The text of a line, past the markers of sequence items. */
  function Text(line: string): (t: string)
    ensures |t| <= |line|
    ensures t != "" ==> !Space(t[0])
    decreases |line|
  {
    var t := TrimStart(line);
    if IsItem(t) && |t| > 1 then Text(t[1..]) else t
  }

  /** Where it starts. */
  function Column(line: string): nat {
    |line| - |Text(line)|
  }

  /** A text past the anchors and tags before it. */
  function AfterProperties(t: string): (r: string)
    ensures |r| <= |t|
    decreases |t|
  {
    if t != "" && !Space(t[0]) && StartsProperty(t) then AfterProperties(TrimStart(AfterWord(t))) else t
  }

  const QUOTE := '\"'
  const BACKSLASH := '\\'
  const APOSTROPHE := '\''

  /** What follows a quoted text, past its closing quote. */
  function AfterQuoted(quote: char, s: string): Option<string> {
    if s == "" then None
    else if quote == QUOTE && s[0] == BACKSLASH && |s| > 1 then AfterQuoted(quote, s[2..])
    else if s[0] != quote then AfterQuoted(quote, s[1..])
    else if quote == APOSTROPHE && |s| > 1 && s[1] == quote then AfterQuoted(quote, s[2..])
    else Some(s[1..])
  }

  /** Inside quotes an escape, or a doubled apostrophe, closes nothing; the quote itself does. */
  lemma {:induction false} QuotesAre(quote: char, c: char, s: string)
    requires quote == '\"' || quote == '\''
    ensures AfterQuoted(quote, "").None?
    ensures AfterQuoted('\"', ['\\', c] + s) == AfterQuoted('\"', s)
    ensures AfterQuoted('\'', ['\'', '\''] + s) == AfterQuoted('\'', s)
    ensures c != quote && !(quote == '\"' && c == '\\') ==> AfterQuoted(quote, [c] + s) == AfterQuoted(quote, s)
    ensures quote == '\"' || s == "" || s[0] != '\'' ==> AfterQuoted(quote, [quote] + s) == Some(s)
  {
    assert ([c] + s)[1..] == s && ([quote] + s)[1..] == s;
    assert (['\\', c] + s)[2..] == s && (['\'', '\''] + s)[2..] == s;
  }

  /** The text of a line stands behind its white space and the markers of sequence items. */
  lemma {:induction false} TextIs(before: string, rest: string)
    requires Blank(before) && rest != "" && !Space(rest[0])
    ensures !(rest[0] == '-' && (|rest| == 1 || Space(rest[1]))) ==> Text(before + rest) == rest
    ensures rest[0] == '-' && |rest| > 1 && Space(rest[1]) ==> Text(before + rest) == Text(rest[1..])
  {
    TrimStartOf(before, rest);
  }

  /** An anchor or a tag is passed with the white space behind it; anything else is where the key starts. */
  lemma {:induction false} PropertiesAre(word: string, between: string, rest: string)
    requires forall c :: c in word ==> !Space(c)
    requires between != "" && Blank(between) && rest != "" && !Space(rest[0])
    ensures word != "" && (word[0] == '&' || word[0] == '!') ==>
              AfterProperties(word + between + rest) == AfterProperties(rest)
    ensures rest[0] != '&' && rest[0] != '!' ==> AfterProperties(rest) == rest
  {
    WordEnds(word, between + rest);
    assert word + between + rest == word + (between + rest);
    TrimStartOf(between, rest);
  }

  lemma {:induction false} WordEnds(word: string, rest: string)
    requires forall c :: c in word ==> !Space(c)
    requires rest == "" || Space(rest[0])
    ensures AfterWord(word + rest) == rest
  {
    if word == "" {
      assert word + rest == rest;
    } else {
      assert (word + rest)[1..] == word[1..] + rest;
      WordEnds(word[1..], rest);
    }
  }

  /** What follows the first colon that ends a plain key, if no comment comes first. */
  function AfterColon(s: string): Option<string> {
    if s == "" then None
    else if s[0] == ':' && (|s| == 1 || Space(s[1])) then Some(s[1..])
    else if Space(s[0]) && |s| > 1 && s[1] == '#' then None
    else AfterColon(s[1..])
  }

  /** A colon before white space or the end closes a plain key; a number sign after white space comes too early. */
  lemma {:induction false} ColonIs(c: char, s: string)
    ensures AfterColon("").None?
    ensures s == "" || Space(s[0]) ==> AfterColon([':'] + s) == Some(s)
    ensures Space(c) && c != ':' ==> AfterColon([c, '#'] + s).None?
    ensures (c == ':' ==> s != "" && !Space(s[0])) && (Space(c) ==> s == "" || s[0] != '#') ==>
              AfterColon([c] + s) == AfterColon(s)
  {
    assert ([':'] + s)[1..] == s && ([c] + s)[1..] == s;
    assert ([c, '#'] + s)[0] == c && ([c, '#'] + s)[1] == '#';
  }

  /** What follows the key of a line. */
  function AfterKey(line: string): Option<string> {
    var t := AfterProperties(Text(line));
    if t == "" || t[0] == '#' then None
    else if t[0] == QUOTE || t[0] == APOSTROPHE then
      var rest := AfterQuoted(t[0], t[1..]);
      if rest.Some? && Starts(TrimStart(rest.value), ':') then Some(TrimStart(rest.value)[1..]) else None
    else AfterColon(t)
  }

  predicate Starts(s: string, c: char) {
    s != "" && s[0] == c
  }

  /** A key with no value on its line. */
  predicate IsKey(line: string) {
    AfterKey(line).Some? && OnlyProperties(AfterKey(line).value)
  }

  /** A line that is part of the value of a key at this column, if nothing else comes between them. */
  predicate BelongsTo(column: nat, line: string) {
    Indent(line) > column || (Indent(line) == column && IsItem(TrimStart(line)))
  }

  /** Has a key at this column a value, when these lines follow it? */
  predicate Valued(column: nat, lines: seq<string>) {
    lines != [] &&
    if Idle(lines[0]) then Valued(column, lines[1..]) else BelongsTo(column, lines[0])
  }

  /** Every key of the document has a value. */
  predicate AllValued(lines: seq<string>) {
    lines != [] ==> (IsKey(lines[0]) ==> Valued(Column(lines[0]), lines[1..])) && AllValued(lines[1..])
  }

  /** The scanner drops this line. */
  predicate Drops(line: string, inside: bool) {
    inside && IsFalseLine(line)
  }

  /** Has the key a value of which the scanner keeps something? */
  predicate StillValued(column: nat, lines: seq<string>, inside: bool) {
    lines != [] &&
    if Idle(lines[0]) || Drops(lines[0], inside)
    then StillValued(column, lines[1..], StaysInside(inside, KindOf(lines[0])))
    else BelongsTo(column, lines[0])
  }

  /** Does the key lose its value: has it any, but only lines that are dropped, and lines that give it none? */
  predicate OnlyDrops(column: nat, lines: seq<string>, inside: bool) {
    lines != [] &&
    if Idle(lines[0]) then OnlyDrops(column, lines[1..], StaysInside(inside, KindOf(lines[0])))
    else
      && Drops(lines[0], inside) && BelongsTo(column, lines[0])
      && !StillValued(column, lines[1..], StaysInside(inside, KindOf(lines[0])))
  }

  /** A key that the scanner leaves as it is: neither dropped nor given an empty map. */
  predicate KeyStays(line: string, more: seq<string>, inside: bool) {
    IsKey(line) && !Drops(line, inside) && (IsHeader(line) ==> KeepsChild(more))
  }

  /** Some key that stays loses its value. */
  predicate EmptiesKey(lines: seq<string>, inside: bool) {
    lines != [] &&
    var inside' := StaysInside(inside, KindOf(lines[0]));
    || (KeyStays(lines[0], lines[1..], inside) && OnlyDrops(Column(lines[0]), lines[1..], inside'))
    || EmptiesKey(lines[1..], inside')
  }

  /** Some key that stays has no value to begin with, and is given none. */
  predicate HoldsBareKey(lines: seq<string>, inside: bool) {
    lines != [] &&
    var column, inside' := Column(lines[0]), StaysInside(inside, KindOf(lines[0]));
    || (KeyStays(lines[0], lines[1..], inside) && !Valued(column, lines[1..])
        && !StillValued(column, lines[1..], inside'))
    || HoldsBareKey(lines[1..], inside')
  }

  // ---- what the scanner leaves ---------------------------------------------------------------------------

  lemma {:induction false} ValuedStep(column: nat, line: string, more: seq<string>)
    ensures Valued(column, [line] + more) <==>
            if Idle(line) then Valued(column, more) else BelongsTo(column, line)
    ensures AllValued([line] + more) <==> (IsKey(line) ==> Valued(Column(line), more)) && AllValued(more)
  {
    assert ([line] + more)[1..] == more;
  }

  lemma {:induction false} OuterBelongsToNone(line: string)
    requires IsHeader(line) || line == EMPTY_BLOCK
    ensures !Idle(line) && !IsFalseLine(line)
    ensures forall column: nat :: !BelongsTo(column, line)
  {
    if IsHeader(line) {
      HeaderHasNoValue(line);
      LineKinds(line);
    } else {
      EmptyBlockHasNoValue();
      EmptyBlockIsOther();
      LineKinds(line);
    }
    assert line[0] == 's' && !Space('s');
    assert TrimStart(line) == line;
  }

  /** A key's value in the result is what the scanner keeps of it. */
  lemma {:induction false} ValuedInResult(column: nat, lines: seq<string>, inside: bool)
    ensures Valued(column, Scanned(lines, inside)) <==> StillValued(column, lines, inside)
  {
    if lines != [] {
      var line, more := lines[0], lines[1..];
      LineKinds(line);
      var rest := Scanned(more, StaysInside(inside, KindOf(line)));
      ValuedInResult(column, more, StaysInside(inside, KindOf(line)));
      if Drops(line, inside) {
        assert [] + rest == rest;
      } else {
        var one := Cleared(line, inside, more)[0];
        ValuedStep(column, one, rest);
        if IsHeader(line) {
          OuterBelongsToNone(line);
          OuterBelongsToNone(EMPTY_BLOCK);
        }
      }
    }
  }

  predicate PlainWord(word: string) {
    forall c :: c in word ==> 'a' <= c <= 'z' || c == '_'
  }

  /** A plain word with a colon at its end is a key, with what follows after it. */
  lemma {:induction false} ColonEndsWord(word: string, rest: string)
    requires PlainWord(word) && (rest != "" ==> Space(rest[0]))
    ensures AfterColon(word + ":" + rest) == Some(rest)
  {
    if word == "" {
      assert word + ":" + rest == ":" + rest && (":" + rest)[1..] == rest;
    } else {
      assert (word + ":" + rest)[1..] == word[1..] + ":" + rest && (word + ":" + rest)[0] == word[0];
      assert word[0] in word && !Space(word[0]);
      forall c | c in word[1..]
        ensures c in word
      {
      }
      ColonEndsWord(word[1..], rest);
    }
  }

  /** The key of an indented line that starts with such a word. */
  lemma {:induction false} WordIsKey(line: string, word: string, rest: string)
    requires TrimStart(line) == word + ":" + rest
    requires word != "" && PlainWord(word)
    requires rest != "" ==> Space(rest[0])
    ensures Text(line) == TrimStart(line) && AfterKey(line) == Some(rest)
  {
    ColonEndsWord(word, rest);
    assert (word + ":" + rest)[0] == word[0] && word[0] in word;
  }

  /** The words this concerns. */
  lemma {:induction false} WordsArePlain()
    ensures PlainWord("sync_repo") && PlainWord("peers") && PlainWord("enabled")
  {
  }

  lemma {:induction false} MarginKey(line: string, word: string, rest: string)
    requires line == word + ":" + rest
    requires word != "" && PlainWord(word)
    requires rest != "" ==> Space(rest[0])
    ensures Text(line) == line && AfterKey(line) == Some(rest)
  {
    assert line[0] == word[0] && word[0] in word;
    WordIsKey(line, word, rest);
  }

  lemma {:induction false} BracesAreValue(rest: string, value: string)
    requires rest == [' '] + value && value != "" && value[0] == '{'
    ensures !OnlyProperties(rest)
  {
    assert rest[1..] == value && TrimStart(value) == value;
  }

  lemma {:induction false} EmptyBlockIsNoKey()
    ensures !IsKey(EMPTY_BLOCK)
  {
    WordsArePlain();
    assert EMPTY_BLOCK == "sync_repo" + ":" + ([' '] + "{}");
    MarginKey(EMPTY_BLOCK, "sync_repo", [' '] + "{}");
    BracesAreValue([' '] + "{}", "{}");
  }

  /** A key that has a value and keeps nothing of it had only lines that are dropped. */
  lemma {:induction false} EmptiedByDrops(column: nat, lines: seq<string>, inside: bool)
    ensures OnlyDrops(column, lines, inside) <==> Valued(column, lines) && !StillValued(column, lines, inside)
  {
    if lines != [] {
      var inside' := StaysInside(inside, KindOf(lines[0]));
      EmptiedByDrops(column, lines[1..], inside');
    }
  }

  lemma {:induction false} LineIsValued(line: string, more: seq<string>, inside: bool)
    requires !Drops(line, inside)
    ensures var inside' := StaysInside(inside, KindOf(line));
            var one := Cleared(line, inside, more);
            && |one| == 1
            && ((IsKey(one[0]) ==> Valued(Column(one[0]), Scanned(more, inside'))) <==>
                !KeyStays(line, more, inside) || StillValued(Column(line), more, inside'))
  {
    LineKinds(line);
    ValuedInResult(Column(line), more, StaysInside(inside, KindOf(line)));
    EmptyBlockIsNoKey();
  }

  /**
   Every parent key of the result has a value exactly when no key that stays has only lines for its value that are
   dropped, and none was without a value before.
   */
  lemma {:induction false} KeysAreValuedUnlessEmptied(lines: seq<string>, inside: bool)
    ensures AllValued(Scanned(lines, inside)) <==> !EmptiesKey(lines, inside) && !HoldsBareKey(lines, inside)
  {
    if lines != [] {
      var line, more := lines[0], lines[1..];
      var inside' := StaysInside(inside, KindOf(line));
      var rest := Scanned(more, inside');
      KeysAreValuedUnlessEmptied(more, inside');
      if Drops(line, inside) {
        LineKinds(line);
        assert [] + rest == rest;
      } else {
        LineIsValued(line, more, inside);
        ValuedStep(0, Cleared(line, inside, more)[0], rest);
        assert Cleared(line, inside, more) == [Cleared(line, inside, more)[0]];
        EmptiedByDrops(Column(line), more, inside');
      }
    }
  }

  /** A document whose keys all have values has no key that was without one. */
  lemma {:induction false} ValuedHoldsNoBare(lines: seq<string>, inside: bool)
    requires AllValued(lines)
    ensures !HoldsBareKey(lines, inside)
  {
    if lines != [] {
      ValuedHoldsNoBare(lines[1..], StaysInside(inside, KindOf(lines[0])));
    }
  }

  /** Clearing a document whose parent keys all have values leaves one without exactly when all its lines are
      dropped. */
  lemma {:induction false} ValuedStaysUnlessEmptied(lines: seq<string>)
    requires AllValued(lines)
    ensures AllValued(Scanned(lines, false)) <==> !EmptiesKey(lines, false)
  {
    KeysAreValuedUnlessEmptied(lines, false);
    ValuedHoldsNoBare(lines, false);
  }

  // ---- the sync_repo keys among them ---------------------------------------------------------------------

  /** For a key at the margin this is what the scanner's own account says. */
  lemma {:induction false} MarginKeys(lines: seq<string>)
    ensures Valued(0, lines) <==> HasValue(lines)
  {
    if lines != [] {
      MarginKeys(lines[1..]);
      if !Blank(lines[0]) {
        MarginLine(lines[0]);
      }
    }
  }

  lemma {:induction false} MarginLine(line: string)
    requires !Blank(line)
    ensures BelongsTo(0, line) <==> IsIndented(line) || IsItem(line)
  {
  }

  lemma {:induction false} HeaderIsKey(line: string)
    requires IsHeader(line)
    ensures IsKey(line) && Column(line) == 0 && !Drops(line, true)
  {
    LineKinds(line);
    HeaderHasNoValue(line);
    var rest := line[|HEADER|..];
    assert line == HEADER + rest && HEADER == "sync_repo" + ":";
    HeaderKey(line, "sync_repo", rest);
  }

  lemma {:induction false} HeaderKey(line: string, word: string, rest: string)
    requires word == "sync_repo" && line == word + ":" + rest && Blank(rest)
    ensures IsKey(line) && Column(line) == 0
  {
    WordsArePlain();
    MarginKey(line, word, rest);
  }

  /** A sync_repo key that stays is left without a value exactly when it keeps only children that give it none. */
  lemma {:induction false} BareMeansNotValued(lines: seq<string>)
    ensures IsBare(lines) <==> !StillValued(0, lines, true)
  {
    ValuedInResult(0, lines, true);
    MarginKeys(Scanned(lines, true));
    BareInResult(lines);
  }

  /** A document all of whose keys end up with values has no bare sync_repo key; the converse fails below. */
  lemma {:induction false} AllValuedMeansNotBare(lines: seq<string>, inside: bool)
    requires AllValued(Scanned(lines, inside))
    ensures !BareKey(lines)
  {
    if lines != [] {
      var line, more := lines[0], lines[1..];
      var rest := Scanned(more, StaysInside(inside, KindOf(line)));
      LineKinds(line);
      if Drops(line, inside) {
        assert [] + rest == rest;
      } else {
        var one := Cleared(line, inside, more)[0];
        ValuedStep(Column(one), one, rest);
        assert Cleared(line, inside, more) == [one];
        if IsHeader(line) && KeepsChild(more) {
          HeaderIsKey(line);
          ValuedInResult(0, more, true);
          BareMeansNotValued(more);
        }
      }
      AllValuedMeansNotBare(more, StaysInside(inside, KindOf(line)));
    }
  }

  // ---- documents that go wrong ---------------------------------------------------------------------------

  lemma {:induction false} IndentedKey(word: string, rest: string)
    requires word != "" && PlainWord(word)
    requires rest != "" ==> Space(rest[0])
    ensures var line := INDENT + (word + ":" + rest);
            && TrimStart(line) == word + ":" + rest && Column(line) == 2 == Indent(line)
            && AfterKey(line) == Some(rest) && !Idle(line) && IsIndented(line)
  {
    var key := word + ":" + rest;
    assert key[0] == word[0] && word[0] in word;
    TrimIndent(key);
    WordIsKey(INDENT + key, word, rest);
  }

  lemma {:induction false} FalseLineStarts(line: string)
    requires IsFalseLine(line)
    ensures TrimStart(line) != "" && TrimStart(line)[0] == 'e'
  {
    assert TrimStart(line)[..|"enabled:"|][0] == 'e';
  }

  /** A key inside a block, other than `enabled`. */
  lemma {:induction false} ChildKey(word: string, rest: string)
    requires word != "" && PlainWord(word) && word[0] != 'e'
    requires OnlyProperties(rest)
    ensures var line := INDENT + (word + ":" + rest);
            KindOf(line) == Child && IsKey(line) && Column(line) == 2 == Indent(line) && !Idle(line)
  {
    var line := INDENT + (word + ":" + rest);
    IndentedKey(word, rest);
    LineKinds(line);
    assert TrimStart(line)[0] == word[0];
    if IsFalseLine(line) {
      FalseLineStarts(line);
      assert false;
    }
    if IsHeader(line) {
      HeaderIsOuter(line);
    }
  }

  lemma {:induction false} DeeperOff(line: string)
    requires IsFalseLine(line)
    ensures KindOf(INDENT + line) == Off && Indent(INDENT + line) == 2 + Indent(line)
    ensures TrimStart(INDENT + line) == TrimStart(line)
  {
    var one := [' '] + line;
    assert one[1..] == line && INDENT + line == [' '] + one && ([' '] + one)[1..] == one;
    assert TrimStart(one) == TrimStart(line);
    assert (INDENT + line)[0] == ' ';
    LineKinds(INDENT + line);
    if IsHeader(INDENT + line) {
      HeaderIsOuter(INDENT + line);
    }
  }

  const DEEP_OFF := INDENT + OFF_LINE

  /** The dropped line is no key and gives a key its value. */
  lemma {:induction false} DeepOffIsValue()
    ensures KindOf(DEEP_OFF) == Off && Indent(DEEP_OFF) == 4 && !Idle(DEEP_OFF) && !IsKey(DEEP_OFF)
  {
    OffLineIsOff();
    LineKinds(OFF_LINE);
    WordsArePlain();
    assert OFF_LINE == INDENT + ("enabled" + ":" + ([' '] + "false"));
    OffIsValue(OFF_LINE, "enabled", [' '] + "false", "false");
  }

  lemma {:induction false} OffIsValue(line: string, word: string, rest: string, value: string)
    requires IsFalseLine(line) && line == INDENT + (word + ":" + rest) && rest == [' '] + value
    requires word != "" && PlainWord(word) && word[0] == 'e' && value != "" && value[0] == 'f'
    ensures KindOf(INDENT + line) == Off && Indent(INDENT + line) == 4
    ensures !Idle(INDENT + line) && !IsKey(INDENT + line)
  {
    IndentedKey(word, rest);
    DeeperOff(line);
    WordIsKey(INDENT + line, word, rest);
    FalseLineStarts(line);
    assert rest[1..] == value && TrimStart(value) == value && TrimStart(rest) == value;
  }

  const PEERS := INDENT + ("peers" + ":" + "")
  const ANCHORED := INDENT + ("peers" + ":" + " &p")

  /** A key inside the block whose only child is dropped is left without a value, with no comment in sight. */
  lemma {:induction false} NestedKeyIsEmptied()
    ensures var lines := [HEADER, PEERS, DEEP_OFF];
            && Scanned(lines, false) == [HEADER, PEERS]
            && AllValued(lines) && !BareKey(lines)
            && EmptiesKey(lines, false) && !AllValued([HEADER, PEERS])
  {
    HeaderIsHeader();
    ChildKey("peers", "");
    DeepOffIsValue();
    Emptied(HEADER, PEERS, DEEP_OFF);
  }

  /** So is one that carries an anchor. */
  lemma {:induction false} AnchoredKeyIsEmptied()
    ensures var lines := [HEADER, ANCHORED, DEEP_OFF];
            && Scanned(lines, false) == [HEADER, ANCHORED]
            && AllValued(lines) && EmptiesKey(lines, false) && !AllValued([HEADER, ANCHORED])
  {
    HeaderIsHeader();
    var rest := " &p";
    assert rest[1..] == "&p" && TrimStart("&p") == "&p" && TrimStart(rest) == "&p";
    assert "&p"[1..] == "p" && "p"[1..] == "" && AfterWord("&p") == "";
    ChildKey("peers", rest);
    DeepOffIsValue();
    Emptied(HEADER, ANCHORED, DEEP_OFF);
  }

  /** A quoted key may hold what would start a comment. */
  lemma {:induction false} QuotedKeyIsKey(line: string, name: string)
    requires QUOTE !in name && BACKSLASH !in name
    requires TrimStart(line) == [QUOTE] + (name + [QUOTE] + ":") && Indent(line) == 2
    ensures KindOf(line) == Child && IsKey(line) && Column(line) == 2 && !Idle(line)
  {
    var rest := name + [QUOTE] + ":";
    assert TrimStart(line)[0] == QUOTE && TrimStart(line)[1..] == rest;
    LineKinds(line);
    if IsFalseLine(line) {
      FalseLineStarts(line);
      assert false;
    }
    QuoteCloses(name, ":");
    ColonOnly();
  }

  lemma {:induction false} ColonOnly()
    ensures TrimStart(":") == ":" && ":"[1..] == ""
  {
  }

  lemma {:induction false} QuoteCloses(name: string, rest: string)
    requires QUOTE !in name && BACKSLASH !in name
    ensures AfterQuoted(QUOTE, name + [QUOTE] + rest) == Some(rest)
  {
    if name == "" {
      assert name + [QUOTE] + rest == [QUOTE] + rest && ([QUOTE] + rest)[1..] == rest;
    } else {
      assert (name + [QUOTE] + rest)[1..] == name[1..] + [QUOTE] + rest;
      QuoteCloses(name[1..], rest);
    }
  }

  /** So such a key is emptied as well. */
  lemma {:induction false} QuotedKeyIsEmptied()
    ensures var key := INDENT + ([QUOTE] + ("a #b" + [QUOTE] + ":"));
            && Scanned([HEADER, key, DEEP_OFF], false) == [HEADER, key]
            && AllValued([HEADER, key, DEEP_OFF]) && EmptiesKey([HEADER, key, DEEP_OFF], false)
            && !AllValued([HEADER, key])
  {
    HeaderIsHeader();
    TrimIndent([QUOTE] + ("a #b" + [QUOTE] + ":"));
    QuotedKeyIsKey(INDENT + ([QUOTE] + ("a #b" + [QUOTE] + ":")), "a #b");
    DeepOffIsValue();
    Emptied(HEADER, INDENT + ([QUOTE] + ("a #b" + [QUOTE] + ":")), DEEP_OFF);
  }

  lemma {:induction false} Emptied(header: string, key: string, off: string)
    requires KindOf(header) == Header && KindOf(key) == Child
    requires IsKey(key) && Column(key) == 2 == Indent(key) && !Idle(key)
    requires KindOf(off) == Off && Indent(off) == 4 && !Idle(off) && !IsKey(off)
    ensures var lines := [header, key, off];
            && Scanned(lines, false) == [header, key]
            && AllValued(lines) && !BareKey(lines)
            && EmptiesKey(lines, false) && !AllValued([header, key])
  {
    assert [header, key, off] == [header] + [key, off] && [key, off] == [key] + [off] && [off] == [off] + [];
    assert [header, key] == [header] + [key] && [key] == [key] + [];
    LineKinds(header);
    LineKinds(key);
    LineKinds(off);
    KeepsChildStep(key, [off]);
    assert Scanned([off], true) == [] by {
      ScannedStep([], off, [], true);
    }
    assert Scanned([key, off], true) == [key] by {
      ScannedStep([], key, [off], true);
    }
    ScannedStep([], header, [key, off], false);
    assert AllValued([header, key, off]) by {
      HeaderIsKey(header);
      ValuedStep(2, off, []);
      ValuedStep(0, key, [off]);
      ValuedStep(0, header, [key, off]);
    }
    NotBare(header, key, off);
    assert !AllValued([header, key]) by {
      ValuedStep(0, key, []);
      ValuedStep(0, header, [key]);
    }
    ValuedStaysUnlessEmptied([header, key, off]);
  }

  lemma {:induction false} NotBare(header: string, key: string, off: string)
    requires !IsHeader(key) && !IsHeader(off) && KindOf(key) == Child && !Idle(key)
    ensures !BareKey([header, key, off])
  {
    assert [header, key, off][1..] == [key, off] && [key, off][1..] == [off] && [off][1..] == [];
    assert !BareKey([off]) && !BareKey([key, off]);
    assert !IsBare([key, off]);
  }
}
