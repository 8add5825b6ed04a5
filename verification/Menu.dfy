/** The boot menu's line editor, and the number it makes of the line. */
module Menu {
  import opened Decimal

  const NO_INPUT: char := '\0'
  const ESCAPE: char := 27 as char
  const BACKSPACE: char := 127 as char
  const ENTER: char := '\r'
  /** Slots of the prompt buffer, the last of which always stays NUL. */
  const BUFFER_SIZE := 11

  /** What the loop sees each time around: the timeout interrupt, or one character. */
  datatype Event = ClockInterrupt | Key(c: char)

  /** The bounded line editor. */
  function Edit(text: string, c: char, limit: nat): string {
    if c == NO_INPUT || c == ESCAPE then text
    else if c == BACKSPACE then if text == [] then text else text[..|text| - 1]
    else if |text| < limit then text + [c]
    else text
  }

  /** How a prompt ends: the line entered, a timeout, or no end yet. */
  datatype Entry = Line(text: string) | TimedOut | Waiting

  function Typed(events: seq<Event>, text: string, limit: nat): Entry {
    if events == [] then Waiting
    else
      match events[0]
      case ClockInterrupt => TimedOut
      case Key(c) => if c == ENTER then Line(text) else Typed(events[1..], Edit(text, c, limit), limit)
  }

  /** Nothing the editor can hold contains a control character, so the line is what atoui will see. */
  lemma {:induction false} TypedHoldsNoNul(events: seq<Event>, text: string, limit: nat)
    requires NUL !in text && |text| <= limit
    ensures Typed(events, text, limit).Line? ==>
      NUL !in Typed(events, text, limit).text && |Typed(events, text, limit).text| <= limit
    decreases |events|
  {
    if events != [] && events[0].Key? && events[0].c != ENTER {
      TypedHoldsNoNul(events[1..], Edit(text, events[0].c, limit), limit);
    }
  }

  /** The text, and nothing but zeros behind it. */
  ghost predicate Shows(buf: seq<char>, text: string) {
    |text| <= |buf| && buf[..|text|] == text && forall i :: |text| <= i < |buf| ==> buf[i] == NUL
  }

  /** Edit the line in place, one character at a time, until Enter or the timeout. */
  method ReadPrompt(buf: array<char>, limit: nat, events: seq<Event>) returns (ended: bool, length: nat)
    requires limit < buf.Length && limit < 256 && forall i :: 0 <= i < buf.Length ==> buf[i] == NUL
    modifies buf
    ensures ended <==> Typed(events, "", limit) != Waiting
    ensures Typed(events, "", limit).Line? ==>
      length == |Typed(events, "", limit).text| && Shows(buf[..], Typed(events, "", limit).text)
    ensures Typed(events, "", limit).TimedOut? ==> length == 0 && buf[0] == NUL
  {
    var idx := 0;
    ghost var text: string := "";
    for k := 0 to |events|
      invariant idx == |text| <= limit && Shows(buf[..], text)
      invariant Typed(events, "", limit) == Typed(events[k..], text, limit)
    {
      var event := events[k];
      assert events[k..][1..] == events[k + 1..];
      if event.ClockInterrupt? {
        buf[0] := NUL;
        return true, 0;
      }
      var c := event.c;
      if c == NO_INPUT || c == ESCAPE {
        continue;
      }
      if c == BACKSPACE {
        if idx > 0 {
          idx := idx - 1;
          buf[idx] := NUL;
          text := text[..idx];
        }
        continue;
      }
      if c == ENTER {
        return true, idx;
      }
      if idx < limit {
        buf[idx] := c;
        idx := idx + 1;
        text := text + [c];
      }
    }
    return false, idx;
  }

  /** The choice a line stands for: the default when empty, -1 for anything but digits. */
  datatype Choice = Undecided | Index(value: int) | Overflow

  ghost function ChoiceOf(e: Entry): Choice {
    match e
    case Waiting => Undecided
    case TimedOut => Index(0)
    case Line(text) =>
      if text == "" then Index(0)
      else if !AllDigits(text) then Index(-1)
      else if Fits(text) then Index(Value(text))
      else Overflow
  }

  /** Prompt for a number. */
  method GetIndex(events: seq<Event>) returns (choice: Choice)
    ensures choice == ChoiceOf(Typed(events, "", BUFFER_SIZE - 1))
  {
    var buf := new char[BUFFER_SIZE](_ => NUL);
    var ended, length := ReadPrompt(buf, BUFFER_SIZE - 1, events);
    if !ended {
      return Undecided;
    }
    if length == 0 {
      return Index(0);
    }
    ghost var text := Typed(events, "", BUFFER_SIZE - 1).text;
    TypedHoldsNoNul(events, "", BUFFER_SIZE - 1);
    for i := 0 to length
      invariant forall k :: 0 <= k < i ==> IsDigit(buf[k])
    {
      assert buf[i] == buf[..length][i] == text[i];
      if !IsDigit(buf[i]) {
        return Index(-1);
      }
    }
    LineSignificant(buf[..], text);
    assert buf[length] == NUL;
    var number := Atoui(buf[..]);
    match number
    case None => return Overflow;
    case Some(v) => return Index(v);
  }

  lemma LineSignificant(buf: seq<char>, text: string)
    requires Shows(buf, text) && text != "" && AllDigits(text) && |text| < |buf|
    ensures Significant(buf) == text
  {
    assert buf[0] == buf[..|text|][0];
    SpacesEnd(buf, 0, 0);
    DigitsEnd(buf, 0, text);
  }

  function Ten(n: nat): (t: nat)
    ensures t > 0
  {
    if n == 0 then 1 else 10 * Ten(n - 1)
  }

  lemma {:induction false} ValueWithin(s: string, n: nat)
    requires AllDigits(s)
    ensures |s| <= n ==> Value(s) < Ten(n)
  {
    if s != [] && |s| <= n {
      ValueWithin(s[..|s| - 1], n - 1);
    }
  }

  lemma {:induction false} DigitsWithin(v: nat, n: nat)
    requires 0 < n && v < Ten(n)
    ensures |Digits(v)| <= n
  {
    if v >= 10 {
      assert n > 1;
      DigitsWithin(v / 10, n - 1);
    }
  }

  /** Up to nine digits are always taken at their value; the tenth that the buffer has room for can overflow. */
  lemma NineDigitsFit(text: string)
    requires AllDigits(text)
    ensures |text| <= 9 ==> Fits(text)
    ensures var long := Digits(2147483600); |long| <= BUFFER_SIZE - 1 && ChoiceOf(Line(long)) == Overflow
  {
    assert Ten(3) == 1000;
    assert Ten(6) == 1000000;
    assert Ten(9) == 1000000000;
    ValueWithin(text, 9);
    DigitsWithin(2147483600, 10);
    ValueOfDigits(2147483600);
  }
}
