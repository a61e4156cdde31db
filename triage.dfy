/**
  The triage half of the script: the three risk categories (main.py:16-19), the
  interpreter that turns the completion server's reply into a category and the
  comment to post (main.py:131-143), and the decision at the end of the script of
  what is written back to the pull request (main.py:280-289).
 */
module Triage {
  import opened Wrappers
  import opened Text

  /** The `Category` enum. */
  datatype Category = BLUE | RED | BLACK

  /** A member's `.value`. */
  function Value(c: Category): string
  {
    match c
    case BLUE => "BLUE"
    case RED => "RED"
    case BLACK => "BLACK"
  }

  /** `Category(v)`: the member whose value is exactly `v`; `None` where Python raises `ValueError`. */
  function FromValue(v: string): (r: Option<Category>)
    ensures forall c :: r == Some(c) <==> Value(c) == v
  {
    if v == "BLUE" then Some(BLUE)
    else if v == "RED" then Some(RED)
    else if v == "BLACK" then Some(BLACK)
    else None
  }

  /** The test of the scan: "BLUE" or "RED" in the line as written, or "BLACK" in the line upper-cased. */
  predicate IsCategoryLine(line: string)
  {
    Contains(line, Value(BLUE)) || Contains(line, Value(RED)) || Contains(Upper(line), Value(BLACK))
  }

  /** What interpreting a reply comes to. */
  datatype Reply =
    | Classified(category: Category, comment: string)
    | Unclassified(comment: string)
      /** `Category(line.upper())` raised `ValueError` on this value; the script stops there. */
    | InvalidCategory(value: string)

  /** The index of the first category line at or after `from`, if any. */
  function FirstMatch(lines: seq<string>, from: nat): (r: Option<nat>)
    requires from <= |lines|
    ensures r.Some? ==> from <= r.value < |lines| && IsCategoryLine(lines[r.value])
    ensures r.Some? ==> forall j :: from <= j < r.value ==> !IsCategoryLine(lines[j])
    ensures r.None? ==> forall j :: from <= j < |lines| ==> !IsCategoryLine(lines[j])
    decreases |lines| - from
  {
    if from == |lines| then None
    else if IsCategoryLine(lines[from]) then Some(from)
    else FirstMatch(lines, from + 1)
  }

  /** The reference meaning of the reply interpreter. */
  function Interpret(reply: string): Reply
  {
    var lines := Split(reply, '\n');
    match FirstMatch(lines, 0)
    case None => Unclassified(reply)
    case Some(i) =>
      match FromValue(Upper(lines[i]))
      case None => InvalidCategory(Upper(lines[i]))
      case Some(c) => Classified(c, Join(lines[i + 1..], '\n'))
  }

  /**
    The parsing half of `query_and_parse_llama`, taking the completion text as input:
    scan the lines in order, stop at the first category line, and keep what follows it.
   */
  method QueryAndParseLlama(llamaText: string) returns (r: Reply)
    ensures r == Interpret(llamaText)
  {
    var lines := Split(llamaText, '\n');
    var category: Option<Category> := None;
    var comment := "";
    for i := 0 to |lines|
      invariant forall j :: 0 <= j < i ==> !IsCategoryLine(lines[j])
      invariant category == None
    {
      var line := lines[i];
      if IsCategoryLine(line) {
        var value := Upper(line);
        category := FromValue(value);
        assert FirstMatch(lines, 0) == Some(i);
        if category == None {
          return InvalidCategory(value);
        }
        comment := Join(Split(llamaText, '\n')[i + 1..], '\n');
        break;
      }
    }
    if category == None {
      assert FirstMatch(lines, 0) == None;
      return Unclassified(llamaText);
    }
    return Classified(category.value, comment);
  }

  /** The scan finds nothing exactly when no line is a category line. */
  lemma NoFirstMatch(lines: seq<string>)
    ensures FirstMatch(lines, 0).None? <==> forall j :: 0 <= j < |lines| ==> !IsCategoryLine(lines[j])
  {
    var r := FirstMatch(lines, 0);
    if r.Some? {
      assert IsCategoryLine(lines[r.value]);
    }
  }

  /**
    With no category line among the reply's lines the reply is handed back unchanged,
    and only then is it unclassified.
   */
  lemma NoCategoryLineKeepsReply(reply: string, lines: seq<string>)
    requires lines == Split(reply, '\n')
    ensures Interpret(reply).Unclassified? <==> forall j :: 0 <= j < |lines| ==> !IsCategoryLine(lines[j])
    ensures Interpret(reply).Unclassified? ==> Interpret(reply).comment == reply
  {
    NoFirstMatch(lines);
  }

  /** The first category line in reading order alone decides the outcome. */
  lemma {:induction false} FirstCategoryLineDecides(reply: string, i: nat)
    requires i < |Split(reply, '\n')|
    requires IsCategoryLine(Split(reply, '\n')[i])
    requires forall j :: 0 <= j < i ==> !IsCategoryLine(Split(reply, '\n')[j])
    ensures var lines := Split(reply, '\n');
      Interpret(reply) ==
        match FromValue(Upper(lines[i]))
        case Some(c) => Classified(c, Join(lines[i + 1..], '\n'))
        case None => InvalidCategory(Upper(lines[i]))
  {
    var r := FirstMatch(Split(reply, '\n'), 0);
    assert r.Some? && r.value == i;
  }

  /**
    Lines added after the deciding line never change the category (or the error);
    they only extend the comment.
   */
  lemma {:induction false} LaterLinesKeepCategory(reply: string, extra: string)
    requires !Interpret(reply).Unclassified?
    ensures var lines := Split(reply, '\n');
      var i := FirstMatch(lines, 0).value;
      var longer := Interpret(reply + "\n" + extra);
      match Interpret(reply)
      case InvalidCategory(v) => longer == InvalidCategory(v)
      case Classified(c, comment) =>
        longer == Classified(c, if i + 1 < |lines| then comment + "\n" + extra else extra)
  {
    var lines := Split(reply, '\n');
    var more := Split(extra, '\n');
    SplitAppend(reply, extra, '\n');
    var i := FirstMatch(lines, 0).value;
    FirstMatchIgnoresAppended(lines, more);
    var all := lines + more;
    assert all[i + 1..] == lines[i + 1..] + more;
    JoinSplit(extra, '\n');
    if i + 1 < |lines| {
      JoinAppend(lines[i + 1..], more, '\n');
    } else {
      assert all[i + 1..] == more;
    }
  }

  /** Appending lines after a list that already has a category line leaves its first one where it is. */
  lemma FirstMatchIgnoresAppended(lines: seq<string>, more: seq<string>)
    requires FirstMatch(lines, 0).Some?
    ensures FirstMatch(lines + more, 0) == FirstMatch(lines, 0)
  {
    var i := FirstMatch(lines, 0).value;
    var all := lines + more;
    assert all[i] == lines[i];
    assert forall j :: 0 <= j < i ==> all[j] == lines[j];
    var k := FirstMatch(all, 0);
    assert k.Some? && k.value <= i;
  }

  /**
    A classified reply is the lines up to the deciding one followed by the comment:
    the comment is everything after that line, and empty when that line is the last.
   */
  lemma {:induction false} CommentIsRestOfReply(reply: string)
    requires Interpret(reply).Classified?
    ensures var lines := Split(reply, '\n');
      var i := FirstMatch(lines, 0).value;
      var comment := Interpret(reply).comment;
      && reply == Join(lines[..i + 1], '\n') + (if i + 1 < |lines| then "\n" + comment else "")
      && (i + 1 == |lines| ==> comment == "")
  {
    var lines := Split(reply, '\n');
    var i := FirstMatch(lines, 0).value;
    assert Interpret(reply).comment == Join(lines[i + 1..], '\n');
    JoinSplit(reply, '\n');
    if i + 1 < |lines| {
      JoinAround(lines, i, '\n');
    } else {
      assert lines[..i + 1] == lines;
    }
  }

  /**
    A category comes out only when the whole deciding line upper-cases to one of the
    three values; any other deciding line (such as "BLUE X") is the `ValueError` path.
   */
  lemma {:induction false} CategoryNeedsExactToken(reply: string)
    requires !Interpret(reply).Unclassified?
    ensures var line := Split(reply, '\n')[FirstMatch(Split(reply, '\n'), 0).value];
      && (Interpret(reply).Classified? <==> Upper(line) in {"BLUE", "RED", "BLACK"})
      && (Interpret(reply).Classified? ==> Value(Interpret(reply).category) == Upper(line))
      && (Interpret(reply).InvalidCategory? ==> Interpret(reply).value == Upper(line))
  {
    var line := Split(reply, '\n')[FirstMatch(Split(reply, '\n'), 0).value];
    if Upper(line) in {"BLUE", "RED", "BLACK"} {
      assert FromValue(Upper(line)).Some?;
    }
  }

  /** Any spelling of "black" on a line of its own is a category line that yields BLACK. */
  lemma AnyCaseBlackIsBlack(line: string)
    requires Upper(line) == "BLACK"
    ensures IsCategoryLine(line) && FromValue(Upper(line)) == Some(BLACK)
  {
    assert Value(BLACK) <= Upper(line);
  }

  /** A text lacking one character of `sub` does not contain `sub`. */
  lemma MissingCharacter(s: string, sub: string, i: nat)
    requires i < |sub| && sub[i] !in s
    ensures !Contains(s, sub)
  {
    if Contains(s, sub) {
      ContainsCharacters(s, sub, i);
    }
  }

  /** An occurrence as long as the text is the text itself. */
  lemma OccurrenceOfSameLength(s: string, sub: string)
    requires Contains(s, sub) && |s| == |sub|
    ensures s == sub
  {
    var k: nat :| OccursAt(s, sub, k);
  }

  /**
    "blue" or "red" spelt in anything but capitals is not a category line at all: the
    blue and red tests, unlike the black one, are case-sensitive.
   */
  lemma {:induction false} OtherCaseBlueOrRedIsIgnored(line: string, c: Category)
    requires c != BLACK && Upper(line) == Value(c) && line != Value(c)
    ensures !IsCategoryLine(line)
  {
    if Contains(line, Value(c)) {
      OccurrenceOfSameLength(line, Value(c));
    }
    var other := if c == BLUE then RED else BLUE;
    assert Value(other)[0] !in line by {
      forall j | 0 <= j < |line|
        ensures line[j] != Value(other)[0]
      {
        assert Upper(line)[j] == UpperChar(line[j]);
      }
    }
    MissingCharacter(line, Value(other), 0);
  }

  /** A one-line reply such as "blue" or "Red" falls through to the unclassified result. */
  lemma {:induction false} OtherCaseBlueOrRedReplyIsUnclassified(reply: string, c: Category)
    requires c != BLACK && Upper(reply) == Value(c) && reply != Value(c)
    ensures Interpret(reply) == Unclassified(reply)
  {
    assert '\n' !in reply by {
      forall j | 0 <= j < |reply|
        ensures reply[j] != '\n'
      {
        assert Upper(reply)[j] == UpperChar(reply[j]);
      }
    }
    SplitWithoutSeparator(reply, '\n');
    OtherCaseBlueOrRedIsIgnored(reply, c);
    assert FirstMatch([reply], 0) == None;
  }

  /** A line with neither a capital B, a small b nor a capital D cannot be a category line. */
  lemma NoTokenLettersNoCategory(line: string)
    requires 'B' !in line && 'b' !in line && 'D' !in line
    ensures !IsCategoryLine(line)
  {
    MissingCharacter(line, Value(BLUE), 0);
    MissingCharacter(line, Value(RED), 2);
    assert 'B' !in Upper(line) by {
      forall j | 0 <= j < |line|
        ensures Upper(line)[j] != 'B'
      {
        assert Upper(line)[j] == UpperChar(line[j]);
      }
    }
    MissingCharacter(Upper(line), Value(BLACK), 0);
  }

  /** A one-line reply without any category line comes back as it is. */
  lemma {:induction false} OneLineWithoutTokenIsUnclassified(reply: string)
    requires '\n' !in reply && !IsCategoryLine(reply)
    ensures Interpret(reply) == Unclassified(reply)
  {
    SplitWithoutSeparator(reply, '\n');
    assert FirstMatch([reply], 0) == None;
  }

  /**
    A reply whose first line is exactly a category value (any spelling, for BLACK)
    yields that category, with the whole rest of the reply as the comment.
   */
  lemma {:induction false} TokenLineThenComment(line: string, rest: string, c: Category)
    requires Upper(line) == Value(c) && (c == BLACK || line == Value(c))
    ensures Interpret(line + "\n" + rest) == Classified(c, rest)
  {
    assert '\n' !in line by {
      forall j | 0 <= j < |line|
        ensures line[j] != '\n'
      {
        assert Upper(line)[j] == UpperChar(line[j]);
      }
    }
    SplitAppend(line, rest, '\n');
    SplitWithoutSeparator(line, '\n');
    var lines := [line] + Split(rest, '\n');
    assert IsCategoryLine(line) by {
      if c == BLACK {
        AnyCaseBlackIsBlack(line);
      } else {
        assert Value(c) <= line;
      }
    }
    assert FirstMatch(lines, 0) == Some(0);
    assert lines[1..] == Split(rest, '\n');
    JoinSplit(rest, '\n');
  }

  /**
    A first category line that is more than a bare category value (such as "BLUE X")
    makes `Category(...)` raise, whatever follows it.
   */
  lemma {:induction false} LongerTokenLineRaises(line: string, rest: string)
    requires '\n' !in line && IsCategoryLine(line) && FromValue(Upper(line)) == None
    ensures Interpret(line + "\n" + rest) == InvalidCategory(Upper(line))
  {
    SplitAppend(line, rest, '\n');
    SplitWithoutSeparator(line, '\n');
    assert FirstMatch([line] + Split(rest, '\n'), 0) == Some(0);
  }

  /** The writes at the end of the script. */
  datatype Action = AddLabel(name: string) | AddComment(body: string)

  /**
    The label (when a category was found) and then the comment; nothing at all when
    the interpreter raised, since the exception ends the script first.
   */
  function Publish(r: Reply): (actions: seq<Action>)
  {
    match r
    case Classified(c, comment) => [AddLabel(Value(c)), AddComment(comment)]
    case Unclassified(comment) => [AddComment(comment)]
    case InvalidCategory(_) => []
  }

  /**
    Every reply the interpreter accepts gets exactly one comment, posted last, and a
    label exactly when a category was found; a reply it rejects gets no write at all.
   */
  lemma PublishWritesCommentAndLabel(reply: string)
    ensures var r := Interpret(reply);
      var actions := Publish(r);
      && (r.InvalidCategory? <==> actions == [])
      && (!r.InvalidCategory? ==> actions[|actions| - 1] == AddComment(r.comment))
      && (forall k :: 0 <= k < |actions| - 1 ==> actions[k].AddLabel?)
      && ((exists k :: 0 <= k < |actions| && actions[k].AddLabel?) <==> r.Classified?)
      && (r.Classified? ==> actions == [AddLabel(Value(r.category)), AddComment(r.comment)])
      && (r.Unclassified? ==> actions == [AddComment(r.comment)])
  {
    var r := Interpret(reply);
    if r.Classified? {
      assert Publish(r)[0].AddLabel?;
    }
  }

  /** The reply "BLUE" then "Looks good, minor nits." gives BLUE with the second line as comment. */
  lemma BlueReplyScenario()
    ensures Interpret("BLUE\nLooks good, minor nits.") == Classified(BLUE, "Looks good, minor nits.")
    ensures Publish(Interpret("BLUE\nLooks good, minor nits."))
         == [AddLabel("BLUE"), AddComment("Looks good, minor nits.")]
  {
    assert "BLUE" + "\n" + "Looks good, minor nits." == "BLUE\nLooks good, minor nits.";
    TokenLineThenComment("BLUE", "Looks good, minor nits.", BLUE);
  }

  /**
    A first line that starts with "BLUE" and goes on (such as "BLUE LABEL") passes the
    scan and then makes `Category(...)` raise, whatever follows it.
   */
  lemma {:induction false} BlueWithSuffixRaises(suffix: string, rest: string)
    requires suffix != [] && '\n' !in suffix
    ensures var line := Value(BLUE) + suffix;
      Interpret(line + "\n" + rest) == InvalidCategory(Upper(line))
  {
    var line := Value(BLUE) + suffix;
    assert Value(BLUE) <= line;
    assert '\n' !in line by {
      forall j | 0 <= j < |line|
        ensures line[j] != '\n'
      {
        if j >= 4 {
          assert line[j] == suffix[j - 4];
        }
      }
    }
    assert Upper(line)[2] == 'U';
    assert FromValue(Upper(line)) == None;
    LongerTokenLineRaises(line, rest);
  }

  /** "Black" is found and yields BLACK, while "blue" is not found at all. */
  lemma CaseAsymmetryScenario()
    ensures Interpret("Black\n") == Classified(BLACK, "")
    ensures Interpret("blue") == Unclassified("blue")
  {
    assert "Black" + "\n" + "" == "Black\n";
    TokenLineThenComment("Black", "", BLACK);
    OtherCaseBlueOrRedReplyIsUnclassified("blue", BLUE);
  }
}
