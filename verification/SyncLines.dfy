/**
 What the passes over sync_repo blocks do to a document, told by the position of its lines rather than by a scan: which
 lines lie in a block, which of them go, and which headers become empty maps.
 */
module SyncLines {
  import opened Segments
  import opened SyncRepo
  import opened Wrappers

  // ---- the forms of a line -------------------------------------------------------------------------------

  /** White space: from tab to carriage return, the blank, and by number the wider ones. */
  lemma {:induction false} SpaceIs(c: char)
    requires c < '\U{10000}'
    ensures Space(c) <==>
              || 0x09 <= c as int <= 0x0d || c as int == 0x20 || c as int == 0xa0 || c as int == 0x1680
              || 0x2000 <= c as int <= 0x200a || c as int == 0x2028 || c as int == 0x2029 || c as int == 0x202f
              || c as int == 0x205f || c as int == 0x3000 || c as int == 0xfeff
  {
  }

  lemma {:induction false} BlankIs(c: char, s: string)
    ensures Blank("") && (Blank([c] + s) <==> Space(c) && Blank(s))
  {
    var line := [c] + s;
    assert line[0] == c;
    if Blank(line) {
      forall i | 0 <= i < |s|
        ensures Space(s[i])
      {
        assert line[i + 1] == s[i];
      }
    }
  }

  /** An indented line has white space and then something else. */
  lemma {:induction false} IndentedIs(line: string)
    ensures IsIndented(line) <==>
              exists before: string, rest: string ::
                before != "" && Blank(before) && rest != "" && !Space(rest[0]) && line == before + rest
  {
    if IsIndented(line) {
      var before := TrimStartIs(line);
      assert before != "" && line == before + TrimStart(line);
    }
    forall before: string, rest: string |
      before != "" && Blank(before) && rest != "" && !Space(rest[0]) && line == before + rest
      ensures IsIndented(line)
    {
      assert line[0] == before[0] && line[|before|] == rest[0];
    }
  }

  lemma {:induction false} TrimStartIs(s: string) returns (blanks: string)
    ensures Blank(blanks) && s == blanks + TrimStart(s)
  {
    if s != "" && Space(s[0]) {
      blanks := TrimStartIs(s[1..]);
      blanks := [s[0]] + blanks;
      assert s == [s[0]] + s[1..];
    } else {
      blanks := "";
    }
  }

  /** A header is the key, and blanks at most. */
  lemma {:induction false} HeaderIs(line: string)
    ensures IsHeader(line) <==> exists after: string :: Blank(after) && line == "sync_repo:" + after
  {
    if IsHeader(line) {
      var after := line[|"sync_repo:"|..];
      assert Blank(after) && line == "sync_repo:" + after;
    }
    forall after: string | Blank(after) && line == "sync_repo:" + after
      ensures IsHeader(line)
    {
      assert line[..|"sync_repo:"|] == "sync_repo:" && line[|"sync_repo:"|..] == after;
    }
  }

  /** `before`, blanks, then `enabled:`, blanks, `word` and what comes after it. */
  function Setting(before: string, between: string, word: string, after: string): string {
    before + ("enabled:" + (between + (word + after)))
  }

  lemma {:induction false} SettingParts(before: string, between: string, word: string, after: string)
    requires Blank(before) && Blank(between) && word != "" && !Space(word[0])
    ensures var key := "enabled:" + (between + (word + after));
            && TrimStart(Setting(before, between, word, after)) == key
            && key[..|"enabled:"|] == "enabled:" && TrimStart(key[|"enabled:"|..]) == word + after
  {
    var key := "enabled:" + (between + (word + after));
    assert key[0] == 'e' && !Space('e');
    TrimStartOf(before, key);
    assert key[|"enabled:"|..] == between + (word + after);
    assert (word + after)[0] == word[0];
    TrimStartOf(between, word + after);
  }

  /** The line that is dropped is indented, and says `enabled: false`, with blanks anywhere between and after. */
  lemma {:induction false} FalseLineIs(line: string)
    ensures IsFalseLine(line) <==>
            exists before: string, between: string, after: string ::
              before != "" && Blank(before) && Blank(between) && Blank(after)
              && line == Setting(before, between, "false", after)
  {
    if IsFalseLine(line) {
      FalseLineParts(line);
    }
    forall before: string, between: string, after: string |
      before != "" && Blank(before) && Blank(between) && Blank(after)
      && line == Setting(before, between, "false", after)
      ensures IsFalseLine(line)
    {
      SettingParts(before, between, "false", after);
      assert line[0] == before[0];
      assert ("false" + after)[..|"false"|] == "false" && ("false" + after)[|"false"|..] == after;
    }
  }

  lemma {:induction false} FalseLineParts(line: string)
    requires IsFalseLine(line)
    ensures exists before: string, between: string, after: string ::
              before != "" && Blank(before) && Blank(between) && Blank(after)
              && line == Setting(before, between, "false", after)
  {
    var before := TrimStartIs(line);
    var key := TrimStart(line);
    var between := TrimStartIs(key[|"enabled:"|..]);
    var value := TrimStart(key[|"enabled:"|..]);
    var after := value[|"false"|..];
    assert key[..|"enabled:"|] == "enabled:" && value[..|"false"|] == "false";
    assert key == "enabled:" + key[|"enabled:"|..] && value == "false" + after;
    assert before == "" ==> line == key;
    assert line == Setting(before, between, "false", after);
  }

  /** A line that says anything else of `enabled` is not dropped. */
  lemma {:induction false} OtherSettingStays(before: string, between: string, word: string, after: string)
    requires before != "" && Blank(before) && Blank(between)
    requires word != "" && !Space(word[0]) && !("false" <= word + after)
    ensures KindOf(Setting(before, between, word, after)) == Child
  {
    var line := Setting(before, between, word, after);
    SettingParts(before, between, word, after);
    assert line[0] == before[0];
    LineKinds(line);
    var value := word + after;
    assert |value| >= |"false"| && value[..|"false"|] == "false" ==> "false" <= value;
  }

  // ---- the scanner ---------------------------------------------------------------------------------------

  /** A header stands above this line, and every line since is indented or blank. */
  ghost predicate InBlock(lines: seq<string>, i: nat)
    requires i <= |lines|
  {
    exists h: nat :: Opens(lines, h, i)
  }

  ghost predicate Opens(lines: seq<string>, h: nat, i: nat)
    requires i <= |lines|
  {
    h < i && IsHeader(lines[h]) && forall j :: h < j < i ==> IsIndented(lines[j]) || Blank(lines[j])
  }

  /** From this line on the lines are indented or blank up to an indented one that is not dropped. */
  ghost predicate ChildFrom(lines: seq<string>, i: nat) {
    exists j: nat :: FirstKept(lines, i, j)
  }

  ghost predicate FirstKept(lines: seq<string>, i: nat, j: nat) {
    && i <= j < |lines| && IsIndented(lines[j]) && !IsFalseLine(lines[j])
    && forall k :: i <= k < j ==> IsIndented(lines[k]) || Blank(lines[k])
  }

  /** What becomes of the `i`-th line. */
  ghost function Becomes(lines: seq<string>, i: nat): seq<string>
    requires i < |lines|
  {
    if InBlock(lines, i) && IsFalseLine(lines[i]) then []
    else if IsHeader(lines[i]) && !ChildFrom(lines, i + 1) then ["sync_repo: {}"]
    else [lines[i]]
  }

  ghost function ByPosition(lines: seq<string>, i: nat): seq<string>
    requires i <= |lines|
    decreases |lines| - i
  {
    if i == |lines| then [] else Becomes(lines, i) + ByPosition(lines, i + 1)
  }

  lemma {:induction false} InBlockNext(lines: seq<string>, i: nat)
    requires i < |lines|
    ensures InBlock(lines, i + 1) <==> StaysInside(InBlock(lines, i), KindOf(lines[i]))
  {
    LineKinds(lines[i]);
    if IsHeader(lines[i]) {
      assert Opens(lines, i, i + 1);
    } else if InBlock(lines, i + 1) {
      var h: nat :| Opens(lines, h, i + 1);
      assert Opens(lines, h, i);
    }
    if InBlock(lines, i) && (IsIndented(lines[i]) || Blank(lines[i])) {
      var h: nat :| Opens(lines, h, i);
      assert Opens(lines, h, i + 1);
    }
  }

  lemma {:induction false} ChildFromNext(lines: seq<string>, i: nat)
    requires i < |lines|
    ensures ChildFrom(lines, i) <==>
            || (IsIndented(lines[i]) && !IsFalseLine(lines[i]))
            || ((IsIndented(lines[i]) || Blank(lines[i])) && ChildFrom(lines, i + 1))
  {
    if IsIndented(lines[i]) && !IsFalseLine(lines[i]) {
      assert FirstKept(lines, i, i);
    } else if ChildFrom(lines, i) {
      var j: nat :| FirstKept(lines, i, j);
      assert FirstKept(lines, i + 1, j);
    }
    if (IsIndented(lines[i]) || Blank(lines[i])) && ChildFrom(lines, i + 1) {
      var j: nat :| FirstKept(lines, i + 1, j);
      assert FirstKept(lines, i, j);
    }
  }

  lemma {:induction false} ChildIsKept(lines: seq<string>, i: nat)
    requires i <= |lines|
    ensures KeepsChild(lines[i..]) <==> ChildFrom(lines, i)
    decreases |lines| - i
  {
    if i < |lines| {
      assert lines[i..][1..] == lines[i + 1..];
      ChildIsKept(lines, i + 1);
      ChildFromNext(lines, i);
      LineKinds(lines[i]);
    }
  }

  lemma {:induction false} RestByPosition(lines: seq<string>, i: nat)
    requires i <= |lines|
    ensures Scanned(lines[i..], InBlock(lines, i)) == ByPosition(lines, i)
    ensures DropsAny(lines[i..], InBlock(lines, i)) <==>
            exists j :: i <= j < |lines| && InBlock(lines, j) && IsFalseLine(lines[j])
    decreases |lines| - i
  {
    if i < |lines| {
      assert lines[i..][1..] == lines[i + 1..];
      RestByPosition(lines, i + 1);
      InBlockNext(lines, i);
      ChildIsKept(lines, i + 1);
      LineKinds(lines[i]);
    }
  }

  /**
   The scanner's result, line by line: an `enabled: false` line in a block is gone, a header whose block keeps no other
   child is an empty map, and every other line stands as it was. Something changes exactly when such a line goes.
   */
  lemma {:induction false} ScannedByPosition(lines: seq<string>)
    ensures Scanned(lines, false) == ByPosition(lines, 0)
    ensures DropsAny(lines, false) <==> exists j :: 0 <= j < |lines| && InBlock(lines, j) && IsFalseLine(lines[j])
  {
    assert lines[0..] == lines;
    RestByPosition(lines, 0);
  }

  // ---- the look-ahead repair -----------------------------------------------------------------------------

  /** From this line on the first line that is not blank is indented. */
  ghost predicate IndentedFrom(lines: seq<string>, i: nat) {
    exists j :: i <= j < |lines| && IsIndented(lines[j]) && forall k :: i <= k < j ==> Blank(lines[k])
  }

  lemma {:induction false} IndentedIsChild(lines: seq<string>, i: nat)
    requires i <= |lines|
    ensures HasChild(lines[i..]) <==> IndentedFrom(lines, i)
    decreases |lines| - i
  {
    if i < |lines| {
      assert lines[i..][1..] == lines[i + 1..];
      IndentedIsChild(lines, i + 1);
      if IndentedFrom(lines, i) {
        var j :| i <= j < |lines| && IsIndented(lines[j]) && forall k :: i <= k < j ==> Blank(lines[k]);
        assert j > i ==> IndentedFrom(lines, i + 1);
      }
      if Blank(lines[i]) && IndentedFrom(lines, i + 1) {
        var j :| i + 1 <= j < |lines| && IsIndented(lines[j]) && forall k :: i + 1 <= k < j ==> Blank(lines[k]);
        assert IndentedFrom(lines, i);
      }
    }
  }

  lemma {:induction false} RestRepaired(lines: seq<string>, m: nat, i: nat)
    requires m <= i < |lines|
    ensures |Repaired(lines[m..])| == |lines| - m
    ensures Repaired(lines[m..])[i - m] ==
            if IsHeader(lines[i]) && !IndentedFrom(lines, i + 1) then "sync_repo: {}" else lines[i]
    decreases |lines| - m
  {
    assert lines[m..][1..] == lines[m + 1..];
    if m < i {
      RestRepaired(lines, m + 1, i);
    } else {
      IndentedIsChild(lines, i + 1);
      if i + 1 < |lines| {
        RestRepaired(lines, i + 1, i + 1);
      }
    }
  }

  /** The repair's result, line by line: a header with no indented line next to it, past blank ones, is an empty map. */
  lemma {:induction false} RepairedByPosition(lines: seq<string>, i: nat)
    requires i < |lines|
    ensures |Repaired(lines)| == |lines|
    ensures Repaired(lines)[i] ==
            if IsHeader(lines[i]) && !IndentedFrom(lines, i + 1) then "sync_repo: {}" else lines[i]
  {
    assert lines[0..] == lines;
    RestRepaired(lines, 0, i);
  }

  lemma {:induction false} RestNeedsRepair(lines: seq<string>, m: nat)
    requires m <= |lines|
    ensures NeedsRepair(lines[m..]) <==>
            exists i :: m <= i < |lines| && IsHeader(lines[i]) && !IndentedFrom(lines, i + 1)
    decreases |lines| - m
  {
    if m < |lines| {
      assert lines[m..][1..] == lines[m + 1..];
      RestNeedsRepair(lines, m + 1);
      IndentedIsChild(lines, m + 1);
    }
  }

  // ---- whole documents -----------------------------------------------------------------------------------

  /** A document is cleared line by line, if a line goes, and repaired line by line, if a header needs it. */
  lemma {:induction false} TextsByPosition(yaml: string, lines: seq<string>)
    requires lines == SplitOn('\n', yaml)
    ensures ClearedText(yaml) ==
            if exists j :: 0 <= j < |lines| && InBlock(lines, j) && IsFalseLine(lines[j])
            then Some(JoinWith('\n', ByPosition(lines, 0))) else None
    ensures RepairedText(yaml) ==
            if exists i :: 0 <= i < |lines| && IsHeader(lines[i]) && !IndentedFrom(lines, i + 1)
            then Some(JoinWith('\n', Repaired(lines))) else None
  {
    ScannedByPosition(lines);
    RestNeedsRepair(lines, 0);
    assert lines[0..] == lines;
  }
}
