/**
 Clearing a persisted `enabled: false` from the sync_repo block of a YAML file line by line, and the separate
 look-ahead repair of an empty block.
 */
module SyncRepo {
  import opened Seqs
  import opened Segments
  import opened Wrappers

  const NEWLINE := '\n'
  const HEADER := "sync_repo:"
  const EMPTY_BLOCK := "sync_repo: {}"

  /** What `\s` matches, and what `trim` takes off. */
  predicate Space(c: char) {
    || c in {' ', '\t', '\n', '\r', '\U{0B}', '\U{0C}', '\U{A0}', '\U{FEFF}', '\U{1680}'}
    || '\U{2000}' <= c <= '\U{200A}'
    || c in {'\U{2028}', '\U{2029}', '\U{202F}', '\U{205F}', '\U{3000}'}
  }

  /** Nothing but white space. */
  predicate Blank(s: string) {
    forall i :: 0 <= i < |s| ==> Space(s[i])
  }

  function TrimStart(s: string): (r: string)
    ensures |r| <= |s|
    ensures r == "" <==> Blank(s)
    ensures r != "" ==> !Space(r[0])
  {
    if s == "" then ""
    else if Space(s[0]) then
      assert s == [s[0]] + s[1..];
      TrimStart(s[1..])
    else s
  }

  lemma {:induction false} TrimStartOf(blanks: string, s: string)
    requires Blank(blanks) && s != "" && !Space(s[0])
    ensures TrimStart(blanks + s) == s
  {
    if blanks == "" {
      assert blanks + s == s;
    } else {
      assert (blanks + s)[1..] == blanks[1..] + s;
      TrimStartOf(blanks[1..], s);
    }
  }

  predicate StartsWith(s: string, start: string) {
    |start| <= |s| && s[..|start|] == start
  }

  /** `^sync_repo:\s*$` */
  predicate IsHeader(line: string) {
    StartsWith(line, HEADER) && Blank(line[|HEADER|..])
  }

  /** `^\s+\S` */
  predicate IsIndented(line: string) {
    line != "" && Space(line[0]) && !Blank(line)
  }

  /** `^\s+enabled:\s*false\s*$` */
  predicate IsFalseLine(line: string) {
    line != "" && Space(line[0]) &&
    var key := TrimStart(line);
    StartsWith(key, "enabled:") &&
    var value := TrimStart(key[|"enabled:"|..]);
    StartsWith(value, "false") && Blank(value[|"false"|..])
  }

  /** How the scanner sees a line. */
  datatype Kind = Header | Off | Child | Empty | Other

  function KindOf(line: string): Kind {
    if IsHeader(line) then Header
    else if IsFalseLine(line) then Off
    else if IsIndented(line) then Child
    else if Blank(line) then Empty
    else Other
  }

  lemma {:induction false} HeaderIsOuter(line: string)
    requires IsHeader(line)
    ensures !IsIndented(line) && !Blank(line) && !IsFalseLine(line)
  {
    assert line[0] == HEADER[0] == 's' && !Space('s');
  }

  lemma {:induction false} OffIsIndented(line: string)
    requires IsFalseLine(line)
    ensures IsIndented(line)
  {
  }

  lemma {:induction false} EmptyBlockIsOther()
    ensures KindOf(EMPTY_BLOCK) == Other
  {
    assert EMPTY_BLOCK[0] == 's' && !Space('s');
    assert EMPTY_BLOCK[|HEADER|..][1] == '{' && !Space('{');
  }

  // ---- what the result is ------------------------------------------------------------------------------

  /** Is the next line inside a sync_repo block: one starts at its header and ends at the next outer line. */
  predicate StaysInside(inside: bool, k: Kind) {
    k == Header || (inside && k != Other)
  }

  /** Does a block that goes on with these lines keep a child? */
  predicate KeepsChild(lines: seq<string>) {
    lines != [] &&
    match KindOf(lines[0])
    case Child => true
    case Off => KeepsChild(lines[1..])
    case Empty => KeepsChild(lines[1..])
    case _ => false
  }

  /** What one line becomes: nothing, an explicit empty block, or itself. */
  function Cleared(line: string, inside: bool, more: seq<string>): seq<string> {
    match KindOf(line)
    case Off => if inside then [] else [line]
    case Header => if KeepsChild(more) then [line] else [EMPTY_BLOCK]
    case _ => [line]
  }

  function Scanned(lines: seq<string>, inside: bool): seq<string> {
    if lines == [] then []
    else Cleared(lines[0], inside, lines[1..]) + Scanned(lines[1..], StaysInside(inside, KindOf(lines[0])))
  }

  /** Is there a line to drop? */
  predicate DropsAny(lines: seq<string>, inside: bool) {
    lines != [] && ((KindOf(lines[0]) == Off && inside) || DropsAny(lines[1..], StaysInside(inside, KindOf(lines[0]))))
  }

  // ---- the scanner -------------------------------------------------------------------------------------

  /** The output so far, with the header of the open block as it will be once the block is read. */
  function Resolved(out: seq<string>, blockStart: int, childrenKept: nat, rest: seq<string>): seq<string>
    requires blockStart < |out|
  {
    if blockStart >= 0 && childrenKept == 0 && !KeepsChild(rest) then out[blockStart := EMPTY_BLOCK] else out
  }

  lemma {:induction false} LineKinds(line: string)
    ensures KindOf(line) == Header <==> IsHeader(line)
    ensures KindOf(line) == Off <==> IsFalseLine(line)
    ensures KindOf(line) == Off || KindOf(line) == Child <==> IsIndented(line)
    ensures KindOf(line) == Empty <==> Blank(line)
  {
    if IsHeader(line) {
      HeaderIsOuter(line);
    }
    if IsFalseLine(line) {
      OffIsIndented(line);
    }
  }

  lemma {:induction false} ScannedStep(done: seq<string>, line: string, more: seq<string>, inside: bool)
    ensures done + Scanned([line] + more, inside)
         == (done + Cleared(line, inside, more)) + Scanned(more, StaysInside(inside, KindOf(line)))
    ensures DropsAny([line] + more, inside) <==>
            (KindOf(line) == Off && inside) || DropsAny(more, StaysInside(inside, KindOf(line)))
  {
    assert ([line] + more)[1..] == more;
    Regroup(done, Cleared(line, inside, more), Scanned(more, StaysInside(inside, KindOf(line))));
  }

  /** What a close of the open block makes of the output. */
  method CloseBlock(out: seq<string>, blockStart: int, childrenKept: nat) returns (r: seq<string>)
    requires blockStart < |out|
    ensures r == if blockStart >= 0 && childrenKept == 0 then out[blockStart := EMPTY_BLOCK] else out
  {
    r := out;
    if blockStart >= 0 && childrenKept == 0 {
      r := r[blockStart := EMPTY_BLOCK];
    }
  }

  method TakeLine(out: seq<string>, blockStart: int, childrenKept: nat, line: string, ghost more: seq<string>)
    returns (out': seq<string>, blockStart': int, childrenKept': nat, dropped: bool)
    requires blockStart < |out|
    ensures blockStart' < |out'|
    ensures blockStart' >= 0 <==> StaysInside(blockStart >= 0, KindOf(line))
    ensures dropped <==> KindOf(line) == Off && blockStart >= 0
    ensures Resolved(out', blockStart', childrenKept', more)
         == Resolved(out, blockStart, childrenKept, [line] + more) + Cleared(line, blockStart >= 0, more)
  {
    LineKinds(line);
    assert ([line] + more)[1..] == more;
    out', blockStart', childrenKept', dropped := out, blockStart, childrenKept, false;
    if IsHeader(line) {
      out' := CloseBlock(out, blockStart, childrenKept);
      blockStart', childrenKept' := |out'|, 0;
    } else if blockStart >= 0 {
      if IsIndented(line) {
        if IsFalseLine(line) {
          dropped := true;
          return;
        }
        childrenKept' := childrenKept + 1;
      } else if !Blank(line) {
        out' := CloseBlock(out, blockStart, childrenKept);
        blockStart', childrenKept' := -1, 0;
      }
    }
    out' := out' + [line];
  }

  /** Drop the `enabled: false` lines of sync_repo blocks, and give a block left without children an explicit map. */
  method ClearLines(lines: seq<string>) returns (out: seq<string>, changed: bool)
    ensures out == Scanned(lines, false)
    ensures changed <==> DropsAny(lines, false)
  {
    var blockStart, childrenKept: nat := -1, 0;
    out, changed := [], false;
    ghost var done, rest := [], lines;
    var i := 0;
    while i < |lines|
      invariant 0 <= i <= |lines| && |done| == i && done + rest == lines
      invariant blockStart < |out|
      invariant Resolved(out, blockStart, childrenKept, rest) + Scanned(rest, blockStart >= 0) == Scanned(lines, false)
      invariant (changed || DropsAny(rest, blockStart >= 0)) <==> DropsAny(lines, false)
    {
      ghost var more := rest[1..];
      NextLine(done, rest, lines, i);
      ScannedStep(Resolved(out, blockStart, childrenKept, rest), lines[i], more, blockStart >= 0);
      var dropped;
      out, blockStart, childrenKept, dropped := TakeLine(out, blockStart, childrenKept, lines[i], more);
      changed := changed || dropped;
      done, rest := done + [lines[i]], more;
      i := i + 1;
    }
    NothingLeft(Resolved(out, blockStart, childrenKept, []), blockStart >= 0);
    out := CloseBlock(out, blockStart, childrenKept);
  }

  lemma {:induction false} NextLine(done: seq<string>, rest: seq<string>, lines: seq<string>, i: nat)
    requires i < |lines| && |done| == i && done + rest == lines
    ensures rest != [] && rest == [lines[i]] + rest[1..] && (done + [lines[i]]) + rest[1..] == lines
  {
    assert rest[0] == (done + rest)[i];
  }

  lemma {:induction false} NothingLeft(out: seq<string>, inside: bool)
    ensures out + Scanned([], inside) == out && !DropsAny([], inside)
  {
  }

  // ---- the result is a fixed point of the scanner ------------------------------------------------------

  lemma {:induction false} KeepsChildStep(line: string, more: seq<string>)
    ensures KeepsChild([line] + more) <==>
            KindOf(line) == Child || ((KindOf(line) == Off || KindOf(line) == Empty) && KeepsChild(more))
  {
    assert ([line] + more)[1..] == more;
  }

  /** A child the block keeps is still there in the result. */
  lemma {:induction false} ChildIsKept(lines: seq<string>)
    requires KeepsChild(lines)
    ensures KeepsChild(Scanned(lines, true))
  {
    var line, more := lines[0], lines[1..];
    var rest := Scanned(more, true);
    if KindOf(line) == Child {
      KeepsChildStep(line, Scanned(more, StaysInside(true, Child)));
    } else {
      ChildIsKept(more);
      KeepsChildStep(line, rest);
      assert [] + rest == rest;
    }
  }

  /**
   Scanning the result changes nothing, where `kept` says whether the result is inside a block: it is not after
   a header that was given an empty map.
   */
  lemma {:induction false} ScannedIsSettled(lines: seq<string>, inside: bool, kept: bool)
    requires kept ==> inside
    requires inside && !kept ==> !KeepsChild(lines)
    ensures !DropsAny(Scanned(lines, inside), kept)
    ensures Scanned(Scanned(lines, inside), kept) == Scanned(lines, inside)
  {
    if lines != [] {
      var line, more := lines[0], lines[1..];
      var k := KindOf(line);
      var inside' := StaysInside(inside, k);
      var rest := Scanned(more, inside');
      if k == Off && inside {
        ScannedIsSettled(more, inside', kept);
        assert [] + rest == rest;
      } else {
        var one := Cleared(line, inside, more)[0];
        EmptyBlockIsOther();
        var kept' := StaysInside(kept, KindOf(one));
        ScannedIsSettled(more, inside', kept');
        if k == Header && KeepsChild(more) {
          ChildIsKept(more);
        }
        ScannedStep([], one, rest, kept);
        SettledStep(one, rest, kept);
      }
    }
  }

  lemma {:induction false} SettledStep(line: string, rest: seq<string>, kept: bool)
    requires Cleared(line, kept, rest) == [line]
    requires !DropsAny(rest, StaysInside(kept, KindOf(line))) && Scanned(rest, StaysInside(kept, KindOf(line))) == rest
    ensures !DropsAny([line] + rest, kept) && Scanned([line] + rest, kept) == [line] + rest
  {
    assert ([line] + rest)[1..] == rest;
  }

  // ---- the look-ahead repair ---------------------------------------------------------------------------

  /** Is the next line that is not blank indented? */
  predicate HasChild(lines: seq<string>) {
    lines != [] && (if Blank(lines[0]) then HasChild(lines[1..]) else IsIndented(lines[0]))
  }

  function Repaired(lines: seq<string>): seq<string> {
    if lines == [] then []
    else [if IsHeader(lines[0]) && !HasChild(lines[1..]) then EMPTY_BLOCK else lines[0]] + Repaired(lines[1..])
  }

  predicate NeedsRepair(lines: seq<string>) {
    lines != [] && ((IsHeader(lines[0]) && !HasChild(lines[1..])) || NeedsRepair(lines[1..]))
  }

  method LookAhead(lines: seq<string>, i: nat) returns (hasChild: bool)
    requires i < |lines|
    ensures hasChild == HasChild(lines[i + 1..])
  {
    hasChild := false;
    var j := i + 1;
    while j < |lines|
      invariant i < j <= |lines|
      invariant HasChild(lines[j..]) == HasChild(lines[i + 1..])
    {
      assert lines[j..][1..] == lines[j + 1..];
      if !Blank(lines[j]) {
        hasChild := IsIndented(lines[j]);
        return;
      }
      j := j + 1;
    }
  }

  /** Give every valueless-looking sync_repo key an explicit empty map. */
  method RepairLines(input: seq<string>) returns (lines: seq<string>, changed: bool)
    ensures lines == Repaired(input) && (changed <==> NeedsRepair(input))
  {
    lines, changed := [], false;
    ghost var rest := input;
    var i := 0;
    while i < |input|
      invariant 0 <= i <= |input| && rest == input[i..]
      invariant lines + Repaired(rest) == Repaired(input)
      invariant changed || NeedsRepair(rest) <==> NeedsRepair(input)
    {
      ghost var more := input[i + 1..];
      assert rest[0] == input[i] && rest[1..] == more;
      var line := input[i];
      if IsHeader(input[i]) {
        var hasChild := LookAhead(input, i);
        if !hasChild {
          line, changed := EMPTY_BLOCK, true;
        }
      }
      Regroup(lines, [line], Repaired(more));
      lines := lines + [line];
      rest := more;
      i := i + 1;
    }
  }

  lemma {:induction false} HasChildStep(line: string, more: seq<string>)
    ensures HasChild([line] + more) <==> (if Blank(line) then HasChild(more) else IsIndented(line))
  {
    assert ([line] + more)[1..] == more;
  }

  /** A header that keeps a child is followed, in the result, by an indented line. */
  lemma {:induction false} KeptChildIsSeen(lines: seq<string>)
    requires KeepsChild(lines)
    ensures HasChild(Scanned(lines, true))
  {
    var line, more := lines[0], lines[1..];
    LineKinds(line);
    var rest := Scanned(more, true);
    if KindOf(line) == Child {
      HasChildStep(line, Scanned(more, StaysInside(true, Child)));
    } else {
      KeptChildIsSeen(more);
      HasChildStep(line, rest);
      assert [] + rest == rest;
    }
  }

  /** The look-ahead repair finds nothing to do in the scanner's result. */
  lemma {:induction false} ScannedNeedsNoRepair(lines: seq<string>, inside: bool)
    ensures !NeedsRepair(Scanned(lines, inside))
  {
    if lines != [] {
      var line, more := lines[0], lines[1..];
      var inside' := StaysInside(inside, KindOf(line));
      var rest := Scanned(more, inside');
      ScannedNeedsNoRepair(more, inside');
      LineKinds(line);
      EmptyBlockIsOther();
      LineKinds(EMPTY_BLOCK);
      var one := Cleared(line, inside, more);
      if one == [] {
        assert [] + rest == rest;
      } else {
        assert ([one[0]] + rest)[1..] == rest;
        if IsHeader(one[0]) {
          KeptChildIsSeen(more);
        }
      }
    }
  }

  /** Nothing to repair means nothing changes. */
  lemma {:induction false} UnneededRepairChangesNothing(lines: seq<string>)
    requires !NeedsRepair(lines)
    ensures Repaired(lines) == lines
  {
    if lines != [] {
      UnneededRepairChangesNothing(lines[1..]);
      assert lines == [lines[0]] + lines[1..];
    }
  }

  lemma {:induction false} RepairKeepsVerdicts(lines: seq<string>)
    ensures HasChild(Repaired(lines)) <==> HasChild(lines)
  {
    if lines != [] {
      RepairKeepsVerdicts(lines[1..]);
      EmptyBlockIsOther();
      LineKinds(EMPTY_BLOCK);
      if IsHeader(lines[0]) {
        HeaderIsOuter(lines[0]);
      }
    }
  }

  /** A repaired document needs no repair. */
  lemma {:induction false} RepairedNeedsNoRepair(lines: seq<string>)
    ensures !NeedsRepair(Repaired(lines))
  {
    if lines != [] {
      RepairedNeedsNoRepair(lines[1..]);
      RepairKeepsVerdicts(lines[1..]);
      EmptyBlockIsOther();
      LineKinds(EMPTY_BLOCK);
    }
  }

  // ---- what YAML makes of it ---------------------------------------------------------------------------

  predicate IsComment(line: string) {
    var t := TrimStart(line);
    t != "" && t[0] == '#'
  }

  /** An entry of a sequence, which may stand under its key without indentation. */
  predicate IsItem(line: string) {
    line != "" && line[0] == '-' && (|line| == 1 || Space(line[1]))
  }

  /** What follows the first word. */
  function AfterWord(s: string): (r: string)
    ensures |r| <= |s|
    ensures s != "" && !Space(s[0]) ==> |r| < |s|
  {
    if s == "" || Space(s[0]) then s else AfterWord(s[1..])
  }

  /** An anchor or a tag. */
  predicate StartsProperty(s: string) {
    s != "" && (s[0] == '&' || s[0] == '!')
  }

  /** Nothing but anchors and tags, and perhaps a comment, after the end of a word. */
  predicate OnlyProperties(s: string)
    decreases |s|
  {
    s == "" || (Space(s[0]) &&
                var t := TrimStart(s);
                t == "" || t[0] == '#' || (StartsProperty(t) && OnlyProperties(AfterWord(t))))
  }

  /** A line of anchors and tags: they belong to a value that has yet to come. */
  predicate IsProperties(line: string) {
    var t := TrimStart(line);
    StartsProperty(t) && OnlyProperties(AfterWord(t))
  }

  /** A line that gives a key no value. */
  predicate Idle(line: string) {
    Blank(line) || IsComment(line) || IsProperties(line)
  }

  /** Has the key before these lines a value: past lines that give it none, is there an indented line or an item? */
  predicate HasValue(lines: seq<string>) {
    lines != [] &&
    (if Idle(lines[0]) then HasValue(lines[1..]) else IsIndented(lines[0]) || IsItem(lines[0]))
  }

  /** The lines from the first that is not blank. */
  function FromNext(lines: seq<string>): (r: seq<string>)
    ensures r != [] ==> !Blank(r[0])
  {
    if lines == [] || !Blank(lines[0]) then lines else FromNext(lines[1..])
  }

  /**
   The look-ahead takes a key for valueless exactly when YAML does, unless the next line that is not blank is a
   comment or holds anchors and tags only, and is indented unlike the key's value, or is an item at the margin.
   */
  lemma {:induction false} VerdictIsRight(lines: seq<string>)
    ensures var next := FromNext(lines);
            (HasChild(lines) <==> HasValue(lines)) <==>
              || next == []
              || (Idle(next[0]) && (IsIndented(next[0]) <==> HasValue(next[1..])))
              || (!Idle(next[0]) && !IsItem(next[0]))
  {
    if lines != [] && Blank(lines[0]) {
      VerdictIsRight(lines[1..]);
    } else if lines != [] && IsItem(lines[0]) {
      ItemIsOuter(lines[0]);
    }
  }

  lemma {:induction false} ItemIsOuter(line: string)
    requires IsItem(line)
    ensures !IsIndented(line) && !Idle(line)
  {
    assert line[0] == '-' && !Space('-');
  }

  /** Once a block goes on with these lines, does its key end up without a value: do all kept children give it none? */
  predicate IsBare(lines: seq<string>) {
    lines == [] ||
    match KindOf(lines[0])
    case Off => IsBare(lines[1..])
    case Empty => IsBare(lines[1..])
    case Child => Idle(lines[0]) && IsBare(lines[1..])
    case _ => !HasValue(lines)
  }

  /** Does the document hold a sync_repo key that keeps a child, but none with a value? */
  predicate BareKey(lines: seq<string>) {
    lines != [] && ((IsHeader(lines[0]) && KeepsChild(lines[1..]) && IsBare(lines[1..])) || BareKey(lines[1..]))
  }

  ghost predicate KeysHaveValues(lines: seq<string>) {
    lines != [] ==> (IsHeader(lines[0]) ==> HasValue(lines[1..])) && KeysHaveValues(lines[1..])
  }

  lemma {:induction false} HasValueStep(line: string, more: seq<string>)
    ensures HasValue([line] + more) <==>
            (if Idle(line) then HasValue(more) else IsIndented(line) || IsItem(line))
  {
    assert ([line] + more)[1..] == more;
  }

  lemma {:induction false} HeaderHasNoValue(line: string)
    requires IsHeader(line)
    ensures !Idle(line) && !IsIndented(line) && !IsItem(line)
  {
    HeaderIsOuter(line);
    assert line[0] == HEADER[0] == 's' && !Space('s');
  }

  lemma {:induction false} EmptyBlockHasNoValue()
    ensures !Idle(EMPTY_BLOCK) && !IsIndented(EMPTY_BLOCK) && !IsItem(EMPTY_BLOCK)
    ensures !IsHeader(EMPTY_BLOCK)
  {
    EmptyBlockIsOther();
    LineKinds(EMPTY_BLOCK);
    assert EMPTY_BLOCK[0] == 's' && !Space('s');
  }

  /** Outside a block the scanner leaves a key's value, or the lack of one, as it is. */
  lemma {:induction false} OutsideKeepsValue(lines: seq<string>)
    ensures HasValue(Scanned(lines, false)) <==> HasValue(lines)
  {
    if lines != [] {
      var line, more := lines[0], lines[1..];
      LineKinds(line);
      var rest := Scanned(more, StaysInside(false, KindOf(line)));
      var one := Cleared(line, false, more)[0];
      HasValueStep(one, rest);
      if IsHeader(line) {
        HeaderHasNoValue(line);
        EmptyBlockHasNoValue();
      } else {
        OutsideKeepsValue(more);
      }
    }
  }

  lemma {:induction false} OuterKeepsValue(lines: seq<string>, inside: bool)
    requires lines != [] && (KindOf(lines[0]) == Header || KindOf(lines[0]) == Other)
    ensures HasValue(Scanned(lines, inside)) <==> HasValue(lines)
  {
    OutsideKeepsValue(lines);
    assert Cleared(lines[0], inside, lines[1..]) == Cleared(lines[0], false, lines[1..]);
  }

  lemma {:induction false} BareInResult(lines: seq<string>)
    ensures HasValue(Scanned(lines, true)) <==> !IsBare(lines)
  {
    if lines != [] {
      var line, more := lines[0], lines[1..];
      LineKinds(line);
      match KindOf(line)
      case Header => OuterKeepsValue(lines, true);
      case Other => OuterKeepsValue(lines, true);
      case _ =>
        var rest := Scanned(more, true);
        BareInResult(more);
        HasValueStep(line, rest);
        assert [] + rest == rest;
    }
  }

  /**
   The sync_repo keys the scanner leaves have values exactly when none of the input keeps only children that give
   it none, such as comments. (What becomes of the keys inside the blocks is the subject of SyncKeys.)
   */
  lemma {:induction false} KeysHaveValuesUnlessBare(lines: seq<string>, inside: bool)
    ensures KeysHaveValues(Scanned(lines, inside)) <==> !BareKey(lines)
  {
    if lines != [] {
      var line, more := lines[0], lines[1..];
      LineKinds(line);
      var rest := Scanned(more, StaysInside(inside, KindOf(line)));
      KeysHaveValuesUnlessBare(more, StaysInside(inside, KindOf(line)));
      EmptyBlockHasNoValue();
      var one := Cleared(line, inside, more);
      if one == [] {
        assert [] + rest == rest;
      } else {
        assert ([one[0]] + rest)[1..] == rest;
        if IsHeader(line) {
          BareInResult(more);
        }
      }
    }
  }

  lemma {:induction false} NoCommentsNotBare(lines: seq<string>)
    requires KeepsChild(lines) && forall l :: l in lines ==> !IsComment(l) && !IsProperties(l)
    ensures !IsBare(lines)
  {
    assert lines[0] in lines;
    if KindOf(lines[0]) != Child {
      NoCommentsNotBare(lines[1..]);
    }
  }

  /** Without comments, and lines of anchors and tags only, no sync_repo key is left without a value. */
  lemma {:induction false} NoCommentsNoBareKey(lines: seq<string>)
    requires forall l :: l in lines ==> !IsComment(l) && !IsProperties(l)
    ensures !BareKey(lines)
  {
    if lines != [] {
      NoCommentsNoBareKey(lines[1..]);
      if KeepsChild(lines[1..]) {
        NoCommentsNotBare(lines[1..]);
      }
    }
  }

  // ---- whole documents ---------------------------------------------------------------------------------

  function ClearedText(yaml: string): Option<string> {
    var lines := SplitOn(NEWLINE, yaml);
    if DropsAny(lines, false) then Some(JoinWith(NEWLINE, Scanned(lines, false))) else None
  }

  function RepairedText(yaml: string): Option<string> {
    var lines := SplitOn(NEWLINE, yaml);
    if NeedsRepair(lines) then Some(JoinWith(NEWLINE, Repaired(lines))) else None
  }

  method ClearPersistedSyncRepoFalse(yaml: string) returns (next: Option<string>)
    ensures next == ClearedText(yaml)
  {
    var lines := SplitOn(NEWLINE, yaml);
    var out, changed := ClearLines(lines);
    next := if changed then Some(JoinWith(NEWLINE, out)) else None;
  }

  method RepairEmptySyncRepoBlock(yaml: string) returns (next: Option<string>)
    ensures next == RepairedText(yaml)
  {
    var lines := SplitOn(NEWLINE, yaml);
    var out, changed := RepairLines(lines);
    next := if changed then Some(JoinWith(NEWLINE, out)) else None;
  }

  lemma {:induction false} ScannedLinesAreWhole(lines: seq<string>, inside: bool)
    requires forall l :: l in lines ==> NEWLINE !in l
    ensures forall l :: l in Scanned(lines, inside) ==> NEWLINE !in l
    ensures lines != [] && !inside ==> Scanned(lines, inside) != []
  {
    if lines != [] {
      ScannedLinesAreWhole(lines[1..], StaysInside(inside, KindOf(lines[0])));
      assert lines[0] in lines;
    }
  }

  /** A document the scanner has changed is left alone by it and by the look-ahead repair from then on. */
  lemma {:induction false} ClearedTextIsSettled(yaml: string)
    requires ClearedText(yaml).Some?
    ensures ClearedText(ClearedText(yaml).value).None?
    ensures RepairedText(ClearedText(yaml).value).None?
  {
    var lines := SplitOn(NEWLINE, yaml);
    var out := Scanned(lines, false);
    ScannedLinesAreWhole(lines, false);
    SplitJoins(NEWLINE, out);
    ScannedIsSettled(lines, false, false);
    ScannedNeedsNoRepair(lines, false);
  }

  lemma {:induction false} RepairedLinesAreWhole(lines: seq<string>)
    requires forall l :: l in lines ==> NEWLINE !in l
    ensures forall l :: l in Repaired(lines) ==> NEWLINE !in l
    ensures |Repaired(lines)| == |lines|
  {
    if lines != [] {
      RepairedLinesAreWhole(lines[1..]);
      assert lines[0] in lines;
    }
  }

  /** A repaired document is left alone by the repair from then on. */
  lemma {:induction false} RepairedTextIsSettled(yaml: string)
    requires RepairedText(yaml).Some?
    ensures RepairedText(RepairedText(yaml).value).None?
  {
    var lines := SplitOn(NEWLINE, yaml);
    RepairedLinesAreWhole(lines);
    SplitJoins(NEWLINE, Repaired(lines));
    RepairedNeedsNoRepair(lines);
  }

  // ---- documents that go wrong -------------------------------------------------------------------------

  const INDENT := "  "

  lemma {:induction false} TrimIndent(s: string)
    requires s != "" && !Space(s[0])
    ensures TrimStart(INDENT + s) == s
    ensures IsIndented(INDENT + s) && !IsHeader(INDENT + s)
  {
    var one := [' '] + s;
    assert one[1..] == s && TrimStart(s) == s;
    assert INDENT + s == [' '] + one && ([' '] + one)[1..] == one;
    assert (INDENT + s)[2] == s[0];
    if IsHeader(INDENT + s) {
      HeaderIsOuter(INDENT + s);
    }
  }

  lemma {:induction false} JoinedStarts(a: string, b: string)
    ensures StartsWith(a + b, a) && (a + b)[|a|..] == b
  {
  }

  const OFF_LINE := INDENT + ("enabled:" + ([' '] + "false"))

  lemma {:induction false} OffLineIsOff()
    ensures KindOf(OFF_LINE) == Off
  {
    var value := [' '] + "false";
    var key := "enabled:" + value;
    assert key[0] == 'e' && !Space('e');
    TrimIndent(key);
    JoinedStarts("enabled:", value);
    assert value[1..] == "false" && TrimStart("false") == "false";
    JoinedStarts("false", "");
    assert "false" + "" == "false";
  }

  const COMMENT := INDENT + "# note"

  lemma {:induction false} CommentIsChild()
    ensures KindOf(COMMENT) == Child && IsComment(COMMENT) && !Blank(COMMENT)
  {
    var note := "# note";
    assert note[0] == '#' && !Space('#');
    TrimIndent(note);
    assert !StartsWith(note, "enabled:");
  }

  lemma {:induction false} HeaderIsHeader()
    ensures KindOf(HEADER) == Header
  {
    JoinedStarts(HEADER, "");
    assert HEADER + "" == HEADER;
  }

  /** A comment counts as a child: dropping the one real line leaves a key with no value. */
  lemma {:induction false} CommentLeavesBareKey()
    ensures Scanned([HEADER, COMMENT, OFF_LINE], false) == [HEADER, COMMENT]
    ensures !HasValue([COMMENT])
  {
    HeaderIsHeader();
    CommentIsChild();
    OffLineIsOff();
    BlockOf(HEADER, COMMENT, OFF_LINE);
  }

  lemma {:induction false} BlockOf(header: string, note: string, off: string)
    requires KindOf(header) == Header && KindOf(note) == Child && IsComment(note) && KindOf(off) == Off
    ensures Scanned([header, note, off], false) == [header, note]
    ensures !HasValue([note])
  {
    assert [header, note, off] == [header] + [note, off] && [note, off] == [note] + [off] && [off] == [off] + [];
    KeepsChildStep(note, [off]);
    assert Scanned([off], true) == [] by {
      ScannedStep([], off, [], true);
    }
    assert Scanned([note, off], true) == [note] by {
      ScannedStep([], note, [off], true);
    }
    ScannedStep([], header, [note, off], false);
    HasValueStep(note, []);
    assert [note] == [note] + [];
  }

  /** A comment at the margin hides the key's child from the look-ahead: the repair gives the key a second value. */
  lemma {:induction false} CommentHidesChild(header: string, note: string, child: string)
    requires IsHeader(header) && IsComment(note) && !IsIndented(note) && !IsHeader(note)
    requires IsIndented(child) && !IsHeader(child) && !Idle(child)
    ensures HasValue([note, child])
    ensures Repaired([header, note, child]) == [EMPTY_BLOCK, note, child]
  {
    assert [header, note, child][1..] == [note, child] && [note, child][1..] == [child] && [child][1..] == [];
    assert !Blank(note);
    assert Repaired([child]) == [child] + [];
    assert Repaired([note, child]) == [note] + [child];
    assert HasValue([child]) by {
      HasValueStep(child, []);
      assert [child] == [child] + [];
    }
  }
}
