/** The text form of a timer event in src/timer.c: printing it, and reading it back. */
module TimerText {
  import opened Text
  import opened Bitmask

  datatype Action = ActionNone | ActionOn | ActionOff

  datatype TimerEvent = TimerEvent(name: string, minute: int, hour: int, wday: Mask, action: Action, mask: Mask)

  const MAX_EVENT_NAME_LEN := 30
  const EVENT_BUF_SIZE := 128

  /** The part of struct tm that check_timer_event looks at. */
  datatype Tm = Tm(min: nat, hour: nat, wday: nat)

  // ---- actions ----

  function ActionText(a: Action): string {
    match a
    case ActionOn => "ON"
    case ActionOff => "OFF"
    case ActionNone => "NONE"
  }

  function Upper(c: char): char {
    if 'a' <= c <= 'z' then (c as int - 'a' as int + 'A' as int) as char else c
  }

  /** !strncasecmp(s, word, |word|). */
  predicate StartsWith(s: string, word: string) {
    |s| >= |word| && forall i :: 0 <= i < |word| ==> Upper(s[i]) == Upper(word[i])
  }

  function ReadAction(s: string): Action {
    if StartsWith(s, "ON") then ActionOn else if StartsWith(s, "OFF") then ActionOff else ActionNone
  }

  /** "on" in any casing, whatever follows. */
  predicate SaysOn(s: string) {
    |s| >= 2 && (s[0] == 'o' || s[0] == 'O') && (s[1] == 'n' || s[1] == 'N')
  }

  predicate SaysOff(s: string) {
    |s| >= 3 && (s[0] == 'o' || s[0] == 'O') && (s[1] == 'f' || s[1] == 'F') && (s[2] == 'f' || s[2] == 'F')
  }

  /** The action that a token reads as, by its first characters. */
  lemma ReadActionExactly(s: string)
    ensures ReadAction(s) == ActionOn <==>
            |s| >= 2 && (s[0] == 'o' || s[0] == 'O') && (s[1] == 'n' || s[1] == 'N')
    ensures ReadAction(s) == ActionOff <==>
            |s| >= 3 && (s[0] == 'o' || s[0] == 'O') && (s[1] == 'f' || s[1] == 'F') && (s[2] == 'f' || s[2] == 'F')
    ensures ReadAction(s) == ActionNone <==> !SaysOn(s) && !SaysOff(s)
  {
    UpperIs('O');
    UpperIs('N');
    UpperIs('F');
    assert StartsWith(s, "ON") <==> |s| >= 2 && Upper(s[0]) == 'O' && Upper(s[1]) == 'N';
    assert StartsWith(s, "OFF") <==> |s| >= 3 && Upper(s[0]) == 'O' && Upper(s[1]) == 'F' && Upper(s[2]) == 'F' by {
      assert "OFF"[0] == 'O' && "OFF"[1] == 'F' && "OFF"[2] == 'F';
    }
  }

  lemma UpperIs(l: char)
    requires 'A' <= l <= 'Z'
    ensures forall c: char :: Upper(c) == l <==> c == l || c as int == l as int + 32
  {
  }

  // ---- check_timer_event ----

  predicate NoneSet(m: Mask) {
    forall i :: 0 <= i < 32 ==> !m[i]
  }

  predicate Matches(e: TimerEvent, t: Tm)
    requires t.wday < 32
  {
    && (e.minute >= 0 ==> e.minute == t.min)
    && (e.hour >= 0 ==> e.hour == t.hour)
    && (NoneSet(e.wday) || e.wday[t.wday])
  }

  // ---- printing ----

  function TimePart(v: int): string {
    if v >= 0 then Decimal2(v) else "*"
  }

  function MaskPart(m: Mask, len: nat, base: nat): string
    requires len <= 32
  {
    if NoneSet(m) then "*" else MaskText(m, len, base, true)
  }

  /** The text of an event on a board with `outputs` outputs. */
  function EventText(e: TimerEvent, outputs: nat): string
    requires outputs <= 32
  {
    EventLine(e, outputs, ActionText(e.action))
  }

  /** The same with any word for the action. */
  function EventLine(e: TimerEvent, outputs: nat, action: string): string
    requires outputs <= 32
  {
    TimePart(e.minute) + " " + TimePart(e.hour) + " " + MaskPart(e.wday, 7, 0) + " " + action + " "
      + MaskPart(e.mask, outputs, 1) + if e.name == "" then "" else " " + e.name
  }

  /** Five fields, and a sixth for the name if there is one, one blank between them. */
  lemma LineInFields(m: string, h: string, w: string, a: string, k: string, name: string)
    ensures var names := if name == "" then [] else [name];
            Join([m, h, w, a, k] + names, ' ')
            == m + " " + h + " " + w + " " + a + " " + k + if name == "" then "" else " " + name
  {
    var line := m + " " + h + " " + w + " " + a + " " + k;
    JoinFive(m, h, w, a, k);
    if name != "" {
      JoinSnoc([m, h, w, a, k], name, ' ');
      assert line + " " + name == line + (" " + name);
    } else {
      assert [m, h, w, a, k] + [] == [m, h, w, a, k];
      assert line + "" == line;
    }
  }

  lemma JoinFive(m: string, h: string, w: string, a: string, k: string)
    ensures Join([m, h, w, a, k], ' ') == m + " " + h + " " + w + " " + a + " " + k
  {
    assert [m, h, w, a, k] == [m, h, w, a] + [k] && [m, h, w, a] == [m, h, w] + [a];
    assert [m, h, w] == [m, h] + [w] && [m, h] == [m] + [h];
    JoinSnoc([m, h, w, a], k, ' ');
    JoinSnoc([m, h, w], a, ' ');
    JoinSnoc([m, h], w, ' ');
    JoinSnoc([m], h, ' ');
  }

  method Append(ghost all: string, buf: string, src: string) returns (buf': string)
    requires buf == Fit(all, EVENT_BUF_SIZE)
    ensures buf' == Fit(all + src, EVENT_BUF_SIZE)
  {
    CatenateFits(all, src, EVENT_BUF_SIZE);
    buf' := StrNCatenate(buf, src, EVENT_BUF_SIZE);
  }

  /** timer_event_str: the text of the event, cut to its 128-byte buffer. */
  method TimerEventStr(e: TimerEvent, outputs: nat) returns (buf: string)
    requires 1 <= outputs <= 16
    ensures buf == Fit(EventText(e, outputs), EVENT_BUF_SIZE)
    ensures var minute := if e.minute < 0 then "*" else Decimal2(e.minute);
            var hour := if e.hour < 0 then "*" else Decimal2(e.hour);
            var days := if NoneSet(e.wday) then "*" else RunsText(Runs(e.wday, 7, true), 0);
            var action := if e.action == ActionOn then "ON" else if e.action == ActionOff then "OFF" else "NONE";
            var numbers := if NoneSet(e.mask) then "*" else RunsText(Runs(e.mask, outputs, true), 1);
            var name := if e.name == "" then [] else [e.name];
            buf == Fit(Join([minute, hour, days, action, numbers] + name, ' '), EVENT_BUF_SIZE)
  {
    buf := PrintFields(e, outputs);
    ghost var minute := if e.minute < 0 then "*" else Decimal2(e.minute);
    ghost var hour := if e.hour < 0 then "*" else Decimal2(e.hour);
    ghost var days := if NoneSet(e.wday) then "*" else RunsText(Runs(e.wday, 7, true), 0);
    ghost var action := if e.action == ActionOn then "ON" else if e.action == ActionOff then "OFF" else "NONE";
    ghost var numbers := if NoneSet(e.mask) then "*" else RunsText(Runs(e.mask, outputs, true), 1);
    LineInFields(minute, hour, days, action, numbers, e.name);
  }

  /** The appends of timer_event_str. */
  method PrintFields(e: TimerEvent, outputs: nat) returns (buf: string)
    requires 1 <= outputs <= 16
    ensures buf == Fit(EventText(e, outputs), EVENT_BUF_SIZE)
  {
    buf := "";
    buf := Append2("", buf, TimePart(e.minute), " ");
    ghost var all := TimePart(e.minute) + " ";
    assert "" + TimePart(e.minute) == TimePart(e.minute);
    buf := Append2(all, buf, TimePart(e.hour), " ");
    all := all + TimePart(e.hour) + " ";
    buf := AppendMask(all, buf, e.wday, 7, 0);
    all := all + MaskPart(e.wday, 7, 0);
    buf := Append(all, buf, " ");
    all := all + " ";
    buf := Append(all, buf, ActionText(e.action));
    all := all + ActionText(e.action);
    buf := Append(all, buf, " ");
    all := all + " ";
    buf := AppendMask(all, buf, e.mask, outputs, 1);
    all := all + MaskPart(e.mask, outputs, 1);
    if |e.name| > 0 {
      buf := Append(all, buf, " ");
      buf := Append(all + " ", buf, e.name);
      assert all + " " + e.name == all + (" " + e.name);
    } else {
      assert all == all + "";
    }
  }

  /** A field and the blank after it, appended at once. */
  method Append2(ghost all: string, buf: string, a: string, b: string) returns (buf': string)
    requires buf == Fit(all, EVENT_BUF_SIZE)
    ensures buf' == Fit(all + a + b, EVENT_BUF_SIZE)
  {
    assert all + (a + b) == all + a + b;
    buf' := Append(all, buf, a + b);
  }

  method AppendMask(ghost all: string, buf: string, m: Mask, len: nat, base: nat) returns (buf': string)
    requires buf == Fit(all, EVENT_BUF_SIZE) && 1 <= len <= 30 && base <= 1
    ensures buf' == Fit(all + MaskPart(m, len, base), EVENT_BUF_SIZE)
  {
    if !NoneSet(m) {
      var r := BitmaskToStr(m, len, base, true, BITMASK_BUF_SIZE);
      MaskTextFits(m, len, base, true);
      buf' := Append(all, buf, r.text);
    } else {
      buf' := Append(all, buf, "*");
    }
  }

  // ---- reading ----

  function ReadTime(tok: string, max: nat): Option<int> {
    if tok == "*" then Some(-1)
    else match StrToInt(tok)
      case None => None
      case Some(i) => if 0 <= i <= max then Some(i) else None
  }

  function AddWord(name: string, word: string): string {
    StrNCatenate(if name == "" then name else StrNCatenate(name, " ", MAX_EVENT_NAME_LEN), word, MAX_EVENT_NAME_LEN)
  }

  /** What token number `count` does to the event: 0 and the event changed, or an error code. */
  function ReadField(e: TimerEvent, count: nat, tok: string, outputs: nat): (int, TimerEvent)
    requires outputs <= 32
  {
    if count == 0 then
      match ReadTime(tok, 59)
      case None => (1, e)
      case Some(v) => (0, e.(minute := v))
    else if count == 1 then
      match ReadTime(tok, 23)
      case None => (2, e)
      case Some(v) => (0, e.(hour := v))
    else if count == 2 then (0, e.(wday := ReadMask(tok, 7, 0)))
    else if count == 3 then (if ReadAction(tok) == ActionNone then (4, e) else (0, e.(action := ReadAction(tok))))
    else if count == 4 then (0, e.(mask := ReadMask(tok, outputs, 1)))
    else (0, e.(name := AddWord(e.name, tok)))
  }

  /** The tokens from number `count` on. Fewer than five in all is error 10. */
  function ReadFields(e: TimerEvent, count: nat, toks: seq<string>, outputs: nat): (int, TimerEvent)
    requires outputs <= 32
    decreases |toks|
  {
    if toks == [] then (if count >= 5 then 0 else 10, e)
    else
      var step := ReadField(e, count, toks[0], outputs);
      if step.0 != 0 then step else ReadFields(step.1, count + 1, toks[1..], outputs)
  }

  /** A minute or an hour: a star or a number up to max. */
  predicate SaysTime(tok: string, max: nat) {
    tok == "*" || (StrToInt(tok).Some? && 0 <= StrToInt(tok).value <= max)
  }

  function TimeSaid(tok: string): int {
    if tok == "*" || StrToInt(tok) == None then -1 else StrToInt(tok).value
  }

  /** parse_timer_event_str into event e0. */
  method ParseTimerEventStr(str: string, e0: TimerEvent, outputs: nat) returns (res: int, e: TimerEvent)
    requires 1 <= outputs <= 16
    ensures (res, e) == ReadFields(e0.(name := ""), 0, Tokens(str, ' '), outputs)
    // which result is for which tokens
    ensures var t := Tokens(str, ' ');
            var minuteOk := |t| >= 1 && (t[0] == "*" || (StrToInt(t[0]).Some? && 0 <= StrToInt(t[0]).value <= 59));
            var hourOk := |t| >= 2 && (t[1] == "*" || (StrToInt(t[1]).Some? && 0 <= StrToInt(t[1]).value <= 23));
            var on := |t| >= 4 && |t[3]| >= 2 && (t[3][0] == 'o' || t[3][0] == 'O') && (t[3][1] == 'n' || t[3][1] == 'N');
            var off := |t| >= 4 && |t[3]| >= 3 && (t[3][0] == 'o' || t[3][0] == 'O') && (t[3][1] == 'f' || t[3][1] == 'F')
                       && (t[3][2] == 'f' || t[3][2] == 'F');
            && (res == 1 <==> |t| >= 1 && !minuteOk)
            && (res == 2 <==> |t| >= 2 && minuteOk && !hourOk)
            && (res == 4 <==> |t| >= 4 && minuteOk && hourOk && !on && !off)
            && (res == 0 <==> |t| >= 5 && minuteOk && hourOk && (on || off))
            && (res == 0 || res == 1 || res == 2 || res == 4 || res == 10)
            // and what the event then is
            && (res == 0 ==>
                  && e.minute == (if t[0] == "*" then -1 else StrToInt(t[0]).value)
                  && e.hour == (if t[1] == "*" then -1 else StrToInt(t[1]).value)
                  && e.wday == ReadMask(t[2], 7, 0) && e.mask == ReadMask(t[4], outputs, 1)
                  && e.action == (if on then ActionOn else ActionOff)
                  && e.name == Fit(Join(t[5..], ' '), MAX_EVENT_NAME_LEN))
  {
    ReadOutcome(e0.(name := ""), Tokens(str, ' '), outputs);
    res, e := ParseFields(str, e0, outputs);
  }

  /** The loop of parse_timer_event_str. */
  method ParseFields(str: string, e0: TimerEvent, outputs: nat) returns (res: int, e: TimerEvent)
    requires 1 <= outputs <= 16
    ensures (res, e) == ReadFields(e0.(name := ""), 0, Tokens(str, ' '), outputs)
  {
    res, e := 10, e0.(name := "");
    var toks := Tokens(str, ' ');
    var count := 0;
    assert toks[0..] == toks;
    while count < |toks|
      invariant 0 <= count <= |toks| && res == if count >= 5 then 0 else 10
      invariant ReadFields(e0.(name := ""), 0, toks, outputs) == ReadFields(e, count, toks[count..], outputs)
    {
      var step;
      step, e := ReadOneField(e, count, toks[count], outputs);
      assert toks[count..][0] == toks[count] && toks[count..][1..] == toks[count + 1..];
      if step != 0 {
        return step, e;
      }
      if count == 4 {
        res := 0;
      }
      count := count + 1;
    }
  }

  /** The body of that loop. */
  method ReadOneField(e0: TimerEvent, count: nat, tok: string, outputs: nat) returns (res: int, e: TimerEvent)
    requires 1 <= outputs <= 16
    ensures (res, e) == ReadField(e0, count, tok, outputs)
  {
    res, e := 0, e0;
    if count == 0 {
      var v := ReadTime(tok, 59);
      if v.None? {
        return 1, e;
      }
      e := e.(minute := v.value);
    } else if count == 1 {
      var v := ReadTime(tok, 23);
      if v.None? {
        return 2, e;
      }
      e := e.(hour := v.value);
    } else if count == 2 {
      var r, m := StrToBitmask(tok, 7, 0);
      if r != Some(0) {
        return 3, e;
      }
      e := e.(wday := m);
    } else if count == 3 {
      var a := ReadAction(tok);
      if a == ActionNone {
        return 4, e;
      }
      e := e.(action := a);
    } else if count == 4 {
      var r, m := StrToBitmask(tok, outputs, 1);
      if r != Some(0) {
        return 5, e;
      }
      e := e.(mask := m);
    } else {
      if |e.name| > 0 {
        e := e.(name := StrNCatenate(e.name, " ", MAX_EVENT_NAME_LEN));
      }
      e := e.(name := StrNCatenate(e.name, tok, MAX_EVENT_NAME_LEN));
    }
  }

  // ---- reading back what was printed ----

  /** The values a stored event can have, whatever its name looks like. */
  ghost predicate WellFormed(e: TimerEvent, outputs: nat)
    requires outputs <= 32
  {
    && e.minute <= 59 && e.hour <= 23
    && Within(e.wday, 7) && Within(e.mask, outputs)
    && |e.name| < MAX_EVENT_NAME_LEN
  }

  /** The name as its words, one space apart. */
  function Squeezed(name: string): string {
    Join(Tokens(name, ' '), ' ')
  }

  /** What reading back makes of an event. */
  function Normal(e: TimerEvent, outputs: nat): TimerEvent {
    TimerEvent(
      Squeezed(e.name),
      if e.minute < 0 then -1 else e.minute,
      if e.hour < 0 then -1 else e.hour,
      if NoneSet(e.wday) then Lowest(7) else e.wday,
      e.action,
      if NoneSet(e.mask) then Lowest(outputs) else e.mask)
  }

  predicate Word(t: string) {
    t != "" && ' ' !in t
  }

  /** A word and a blank at the front are read off as one token. */
  lemma NextToken(a: string, rest: string)
    requires Word(a)
    ensures Tokens(a + " " + rest, ' ') == [a] + Tokens(rest, ' ')
  {
    FirstToken(a, " " + rest, ' ');
    assert a + (" " + rest) == a + " " + rest;
    assert (" " + rest)[1..] == rest;
  }

  lemma TimePartIsWord(v: int, max: nat)
    requires v <= max <= 99
    ensures Word(TimePart(v)) && ReadTime(TimePart(v), max) == Some(if v < 0 then -1 else v)
  {
    if v >= 0 {
      StrToIntOfDecimal(v);
      DigitsAreWord(Decimal2(v));
    }
  }

  lemma DigitsAreWord(s: string)
    requires s != "" && AllDigits(s)
    ensures Word(s) && s != "*"
  {
    assert s[0] in s;
  }

  /** A mask that is not empty prints as one word; an empty one as a star. */
  lemma MaskPartIsWord(m: Mask, len: nat, base: nat)
    requires 1 <= len <= 30 && base <= 1 && Within(m, len)
    ensures Word(MaskPart(m, len, base))
    ensures ReadMask(MaskPart(m, len, base), len, base) == if NoneSet(m) then Lowest(len) else m
  {
    if !NoneSet(m) {
      MaskReadBack(m, len, base, true);
      RunsTextIsWord(Runs(m, len, true), base);
      if Runs(m, len, true) == [] {
        forall i | 0 <= i < 32
          ensures !m[i]
        {
          RunsHoldBits(m, len, true, i);
        }
      }
    }
  }

  lemma {:induction false} RunsTextIsWord(rs: seq<Run>, base: nat)
    ensures ' ' !in RunsText(rs, base) && (rs != [] ==> RunsText(rs, base) != "")
  {
    if rs != [] {
      RunsTextIsWord(rs[..|rs| - 1], base);
      DigitsAreWord(Decimal(rs[|rs| - 1].lo + base));
      DigitsAreWord(Decimal(rs[|rs| - 1].hi + base));
    }
  }

  lemma ActionReadBack(a: Action)
    ensures ReadAction(ActionText(a)) == a && Word(ActionText(a))
  {
    ReadActionExactly(ActionText(a));
  }

  /** The words of a name read one by one: joined by blanks, and cut to the event's name. */
  lemma {:induction false} ReadNames(e: TimerEvent, count: nat, toks: seq<string>, outputs: nat, before: seq<string>)
    requires outputs <= 32 && count >= 5 && NoneEmpty(toks) && NoneEmpty(before)
    requires e.name == Fit(Join(before, ' '), MAX_EVENT_NAME_LEN)
    ensures ReadFields(e, count, toks, outputs) == (0, e.(name := Fit(Join(before + toks, ' '), MAX_EVENT_NAME_LEN)))
    decreases |toks|
  {
    if toks == [] {
      assert before + toks == before;
    } else {
      var next := before + [toks[0]];
      OneOver(before, toks);
      NameGrows(before, toks[0]);
      ReadOneName(e, count, toks, outputs);
      ReadNames(e.(name := Fit(Join(next, ' '), MAX_EVENT_NAME_LEN)), count + 1, toks[1..], outputs, next);
    }
  }

  ghost predicate NoneEmpty(parts: seq<string>) {
    forall i :: 0 <= i < |parts| ==> parts[i] != ""
  }

  lemma OneOver(before: seq<string>, toks: seq<string>)
    requires toks != [] && NoneEmpty(toks) && NoneEmpty(before)
    ensures NoneEmpty(before + [toks[0]]) && NoneEmpty(toks[1..]) && before + toks == before + [toks[0]] + toks[1..]
  {
  }

  lemma ReadOneName(e: TimerEvent, count: nat, toks: seq<string>, outputs: nat)
    requires outputs <= 32 && count >= 5 && toks != []
    ensures ReadFields(e, count, toks, outputs) == ReadFields(e.(name := AddWord(e.name, toks[0])), count + 1, toks[1..], outputs)
  {
  }

  lemma NameGrows(before: seq<string>, word: string)
    requires NoneEmpty(before)
    ensures AddWord(Fit(Join(before, ' '), MAX_EVENT_NAME_LEN), word) == Fit(Join(before + [word], ' '), MAX_EVENT_NAME_LEN)
  {
    JoinSnoc(before, word, ' ');
    if before == [] {
      CatenateFits("", word, MAX_EVENT_NAME_LEN);
      assert "" + word == word;
    } else {
      var name := Join(before, ' ');
      assert name != "";
      CatenateFits(name, " ", MAX_EVENT_NAME_LEN);
      CatenateFits(name + " ", word, MAX_EVENT_NAME_LEN);
    }
  }

  /** Squeezing a name never makes it longer. */
  lemma {:induction false} SqueezedIsShorter(name: string)
    ensures |Squeezed(name)| <= |name|
    decreases |name|
  {
    if name != "" {
      if name[0] == ' ' {
        SqueezedIsShorter(name[1..]);
      } else {
        var n := Span(name, ' ');
        SqueezedIsShorter(name[n..]);
        if n < |name| {
          assert name[n..][0] == ' ';
          SqueezedIsShorter(name[n..][1..]);
        }
      }
    }
  }

  lemma TextInWords(m: string, h: string, w: string, a: string, k: string, tail: string)
    ensures m + " " + h + " " + w + " " + a + " " + k + tail ==
            m + " " + (h + " " + (w + " " + (a + " " + (k + tail))))
  {
    assert a + " " + k + tail == a + " " + (k + tail);
    assert w + " " + a + " " + k + tail == w + " " + (a + " " + k + tail);
    assert h + " " + w + " " + a + " " + k + tail == h + " " + (w + " " + a + " " + k + tail);
    assert m + " " + h + " " + w + " " + a + " " + k + tail == m + " " + (h + " " + w + " " + a + " " + k + tail);
  }

  lemma WordsOfText(m: string, h: string, w: string, a: string, k: string, tail: string, names: seq<string>)
    requires Word(m) && Word(h) && Word(w) && Word(a) && Tokens(k + tail, ' ') == [k] + names
    ensures Tokens(m + " " + (h + " " + (w + " " + (a + " " + (k + tail)))), ' ') == [m, h, w, a, k] + names
  {
    TwoWords(w, a, k + tail);
    TwoWords(m, h, w + " " + (a + " " + (k + tail)));
    assert [m, h] + ([w, a] + ([k] + names)) == [m, h, w, a, k] + names;
  }

  lemma TwoWords(a: string, b: string, rest: string)
    requires Word(a) && Word(b)
    ensures Tokens(a + " " + (b + " " + rest), ' ') == [a, b] + Tokens(rest, ' ')
  {
    NextToken(b, rest);
    NextToken(a, b + " " + rest);
  }

  lemma LastWords(k: string, name: string)
    requires Word(k)
    ensures Tokens(k + (if name == "" then "" else " " + name), ' ') == [k] + Tokens(name, ' ')
  {
    var tail := if name == "" then "" else " " + name;
    FirstToken(k, tail, ' ');
    assert name != "" ==> tail[1..] == name;
  }

  lemma WordsOfEvent(e: TimerEvent, outputs: nat, action: string)
    requires outputs <= 32
    requires Word(TimePart(e.minute)) && Word(TimePart(e.hour)) && Word(MaskPart(e.wday, 7, 0))
    requires Word(action) && Word(MaskPart(e.mask, outputs, 1))
    ensures Tokens(EventLine(e, outputs, action), ' ') ==
            [TimePart(e.minute), TimePart(e.hour), MaskPart(e.wday, 7, 0), action, MaskPart(e.mask, outputs, 1)] + Tokens(e.name, ' ')
  {
    var tail := if e.name == "" then "" else " " + e.name;
    var m, h, w, k := TimePart(e.minute), TimePart(e.hour), MaskPart(e.wday, 7, 0), MaskPart(e.mask, outputs, 1);
    LastWords(k, e.name);
    WordsOfText(m, h, w, action, k, tail, Tokens(e.name, ' '));
    TextInWords(m, h, w, action, k, tail);
  }

  lemma ReadFive(e: TimerEvent, m: string, h: string, w: string, a: string, k: string, names: seq<string>, outputs: nat, minute: int, hour: int)
    requires outputs <= 32
    requires ReadTime(m, 59) == Some(minute) && ReadTime(h, 23) == Some(hour)
    ensures ReadFields(e, 0, [m, h, w, a, k] + names, outputs) ==
            if ReadAction(a) == ActionNone then (4, e.(minute := minute, hour := hour, wday := ReadMask(w, 7, 0)))
            else ReadFields(TimerEvent(e.name, minute, hour, ReadMask(w, 7, 0), ReadAction(a), ReadMask(k, outputs, 1)), 5, names, outputs)
  {
    var e1 := e.(minute := minute);
    var e2 := e1.(hour := hour);
    var e3 := e2.(wday := ReadMask(w, 7, 0));
    assert ([m, h, w, a, k] + names)[1..] == [h, w, a, k] + names;
    assert ([h, w, a, k] + names)[1..] == [w, a, k] + names;
    assert ([w, a, k] + names)[1..] == [a, k] + names;
    assert ([a, k] + names)[1..] == [k] + names;
    assert ([k] + names)[1..] == names;
    if ReadAction(a) != ActionNone {
      var e4 := e3.(action := ReadAction(a));
      var e5 := e4.(mask := ReadMask(k, outputs, 1));
      assert ReadFields(e4, 4, [k] + names, outputs) == ReadFields(e5, 5, names, outputs);
      assert ReadFields(e3, 3, [a, k] + names, outputs) == ReadFields(e4, 4, [k] + names, outputs);
    }
    assert ReadFields(e2, 2, [w, a, k] + names, outputs) == ReadFields(e3, 3, [a, k] + names, outputs);
    assert ReadFields(e, 0, [m, h, w, a, k] + names, outputs) == ReadFields(e1, 1, [h, w, a, k] + names, outputs);
  }

  lemma OneField(e: TimerEvent, toks: seq<string>, k: nat, outputs: nat)
    requires k < |toks| && outputs <= 32
    ensures var step := ReadField(e, k, toks[k], outputs);
            ReadFields(e, k, toks[k..], outputs) == if step.0 != 0 then step else ReadFields(step.1, k + 1, toks[k + 1..], outputs)
  {
    assert toks[k..][1..] == toks[k + 1..];
  }

  lemma ReadTimeExactly(tok: string, max: nat)
    ensures ReadTime(tok, max) == if SaysTime(tok, max) then Some(TimeSaid(tok)) else None
  {
  }

  /** The result by the tokens, and the event. */
  lemma ReadOutcome(e: TimerEvent, t: seq<string>, outputs: nat)
    requires 1 <= outputs <= 16 && e.name == "" && NoneEmpty(t)
    ensures var r := ReadFields(e, 0, t, outputs);
            if |t| >= 1 && !SaysTime(t[0], 59) then r.0 == 1
            else if |t| >= 2 && !SaysTime(t[1], 23) then r.0 == 2
            else if |t| >= 4 && !SaysOn(t[3]) && !SaysOff(t[3]) then r.0 == 4
            else if |t| < 5 then r.0 == 10
            else r == (0, TimerEvent(Fit(Join(t[5..], ' '), MAX_EVENT_NAME_LEN), TimeSaid(t[0]), TimeSaid(t[1]), ReadMask(t[2], 7, 0),
                                     if SaysOn(t[3]) then ActionOn else ActionOff, ReadMask(t[4], outputs, 1)))
  {
    assert t[0..] == t;
    if |t| >= 1 {
      OneField(e, t, 0, outputs);
      ReadTimeExactly(t[0], 59);
      if SaysTime(t[0], 59) {
        OutcomeFromHour(e.(minute := TimeSaid(t[0])), t, outputs);
      }
    }
  }

  lemma OutcomeFromHour(e: TimerEvent, t: seq<string>, outputs: nat)
    requires 1 <= outputs <= 16 && e.name == "" && NoneEmpty(t) && |t| >= 1
    ensures var r := ReadFields(e, 1, t[1..], outputs);
            if |t| >= 2 && !SaysTime(t[1], 23) then r.0 == 2
            else if |t| >= 4 && !SaysOn(t[3]) && !SaysOff(t[3]) then r.0 == 4
            else if |t| < 5 then r.0 == 10
            else r == (0, TimerEvent(Fit(Join(t[5..], ' '), MAX_EVENT_NAME_LEN), e.minute, TimeSaid(t[1]), ReadMask(t[2], 7, 0),
                                     if SaysOn(t[3]) then ActionOn else ActionOff, ReadMask(t[4], outputs, 1)))
  {
    if |t| >= 2 {
      OneField(e, t, 1, outputs);
      ReadTimeExactly(t[1], 23);
      if SaysTime(t[1], 23) && |t| >= 3 {
        OneField(e.(hour := TimeSaid(t[1])), t, 2, outputs);
        OutcomeFromAction(e.(hour := TimeSaid(t[1]), wday := ReadMask(t[2], 7, 0)), t, outputs);
      }
    }
  }

  lemma OutcomeFromAction(e: TimerEvent, t: seq<string>, outputs: nat)
    requires 1 <= outputs <= 16 && e.name == "" && NoneEmpty(t) && |t| >= 3
    ensures var r := ReadFields(e, 3, t[3..], outputs);
            if |t| >= 4 && !SaysOn(t[3]) && !SaysOff(t[3]) then r.0 == 4
            else if |t| < 5 then r.0 == 10
            else r == (0, TimerEvent(Fit(Join(t[5..], ' '), MAX_EVENT_NAME_LEN), e.minute, e.hour, e.wday,
                                     if SaysOn(t[3]) then ActionOn else ActionOff, ReadMask(t[4], outputs, 1)))
  {
    if |t| >= 4 {
      OneField(e, t, 3, outputs);
      ReadActionExactly(t[3]);
      if SaysOn(t[3]) || SaysOff(t[3]) {
        var e4 := e.(action := if SaysOn(t[3]) then ActionOn else ActionOff);
        if |t| >= 5 {
          OneField(e4, t, 4, outputs);
          assert [] + t[5..] == t[5..];
          ReadNames(e4.(mask := ReadMask(t[4], outputs, 1)), 5, t[5..], outputs, []);
        }
      }
    }
  }

  lemma TextFits(e: TimerEvent, outputs: nat)
    requires 1 <= outputs <= 16 && WellFormed(e, outputs)
    ensures |EventText(e, outputs)| < EVENT_BUF_SIZE
  {
    TimeIsShort(e.minute);
    TimeIsShort(e.hour);
    MaskPartIsShort(e.wday, 7, 0);
    MaskPartIsShort(e.mask, outputs, 1);
    LengthOfText(TimePart(e.minute), TimePart(e.hour), MaskPart(e.wday, 7, 0), ActionText(e.action), MaskPart(e.mask, outputs, 1),
                 if e.name == "" then "" else " " + e.name);
  }

  lemma TimeIsShort(v: int)
    requires v <= 99
    ensures |TimePart(v)| <= 2
  {
    if v >= 0 {
      ShortNumber(v);
    }
  }

  lemma MaskPartIsShort(m: Mask, len: nat, base: nat)
    requires len <= 30 && base <= 1
    ensures |MaskPart(m, len, base)| <= 3 * len + 1
  {
    MaskTextFits(m, len, base, true);
  }

  lemma LengthOfText(m: string, h: string, w: string, a: string, k: string, tail: string)
    ensures |m + " " + h + " " + w + " " + a + " " + k + tail| == |m| + |h| + |w| + |a| + |k| + |tail| + 4
  {
  }

  /** A word for the action: as printed, but for its casing. */
  predicate NamesAction(a: Action, word: string) {
    match a
    case ActionOn => |word| == 2 && SaysOn(word)
    case ActionOff => |word| == 3 && SaysOff(word)
    case ActionNone => word == "NONE"
  }

  /** Reading back what is printed for an event, with the action in any casing, gives its normal
      form, whatever was in the event before; an event without an action is not read back. */
  lemma ReadBackInAnyCase(e: TimerEvent, e0: TimerEvent, outputs: nat, action: string)
    requires 1 <= outputs <= 16 && WellFormed(e, outputs) && NamesAction(e.action, action)
    ensures var r := ReadFields(e0.(name := ""), 0, Tokens(EventLine(e, outputs, action), ' '), outputs);
            if e.action == ActionNone then r.0 == 4 else r == (0, Normal(e, outputs))
  {
    var m, h, w, k := TimePart(e.minute), TimePart(e.hour), MaskPart(e.wday, 7, 0), MaskPart(e.mask, outputs, 1);
    PartsReadBack(e, outputs);
    ActionNamed(e.action, action);
    WordsOfEvent(e, outputs, action);
    var n := Normal(e, outputs);
    ReadFive(e0.(name := ""), m, h, w, action, k, Tokens(e.name, ' '), outputs, n.minute, n.hour);
    if e.action != ActionNone {
      NameReadBack(e, outputs);
    }
  }

  lemma PartsReadBack(e: TimerEvent, outputs: nat)
    requires 1 <= outputs <= 16 && WellFormed(e, outputs)
    ensures var n := Normal(e, outputs);
            && Word(TimePart(e.minute)) && ReadTime(TimePart(e.minute), 59) == Some(n.minute)
            && Word(TimePart(e.hour)) && ReadTime(TimePart(e.hour), 23) == Some(n.hour)
            && Word(MaskPart(e.wday, 7, 0)) && ReadMask(MaskPart(e.wday, 7, 0), 7, 0) == n.wday
            && Word(MaskPart(e.mask, outputs, 1)) && ReadMask(MaskPart(e.mask, outputs, 1), outputs, 1) == n.mask
  {
    TimePartIsWord(e.minute, 59);
    TimePartIsWord(e.hour, 23);
    MaskPartIsWord(e.wday, 7, 0);
    MaskPartIsWord(e.mask, outputs, 1);
  }

  lemma ActionNamed(a: Action, word: string)
    requires NamesAction(a, word)
    ensures ReadAction(word) == a && Word(word)
  {
    ReadActionExactly(word);
    if a == ActionNone {
      ActionReadBack(a);
    }
  }

  lemma NameReadBack(e: TimerEvent, outputs: nat)
    requires 1 <= outputs <= 16 && WellFormed(e, outputs)
    ensures ReadFields(Normal(e, outputs).(name := ""), 5, Tokens(e.name, ' '), outputs) == (0, Normal(e, outputs))
  {
    var names := Tokens(e.name, ' ');
    SqueezedIsShorter(e.name);
    assert [] + names == names;
    ReadNames(Normal(e, outputs).(name := ""), 5, names, outputs, []);
  }

  /** Printing an event and reading it back gives its normal form; the text is never cut. */
  lemma EventReadBack(e: TimerEvent, e0: TimerEvent, outputs: nat)
    requires 1 <= outputs <= 16 && WellFormed(e, outputs)
    ensures |EventText(e, outputs)| < EVENT_BUF_SIZE
    ensures var r := ReadFields(e0.(name := ""), 0, Tokens(EventText(e, outputs), ' '), outputs);
            if e.action == ActionNone then r.0 == 4 else r == (0, Normal(e, outputs))
  {
    TextFits(e, outputs);
    ReadBackInAnyCase(e, e0, outputs, ActionText(e.action));
  }

  /** The event that is read back matches exactly the same times. */
  lemma NormalMatchesSame(e: TimerEvent, outputs: nat, t: Tm)
    requires t.wday <= 6
    ensures Matches(Normal(e, outputs), t) <==> Matches(e, t)
  {
    assert !NoneSet(Lowest(7)) by {
      assert Lowest(7)[0];
    }
  }

  /** Words one space apart. */
  ghost predicate SingleSpaced(name: string) {
    name != "" ==>
      && name[0] != ' ' && name[|name| - 1] != ' '
      && forall i :: 0 <= i < |name| - 1 && name[i] == ' ' ==> name[i + 1] != ' '
  }

  lemma {:induction false} SingleSpacedStays(name: string)
    requires SingleSpaced(name)
    ensures Squeezed(name) == name
    decreases |name|
  {
    if name != "" {
      var n := Span(name, ' ');
      if n < |name| {
        var rest := name[n + 1..];
        RestIsSingleSpaced(name, n);
        SingleSpacedStays(rest);
        WordApart(name, n);
        JoinCons(name[..n], Tokens(rest, ' '));
      } else {
        assert name[..n] == name && name[n..] == "";
        assert Tokens(name, ' ') == [name];
      }
    }
  }

  lemma WordApart(name: string, n: nat)
    requires 0 < n < |name| && n == Span(name, ' ')
    ensures Tokens(name, ' ') == [name[..n]] + Tokens(name[n + 1..], ' ')
    ensures name == name[..n] + [' '] + name[n + 1..]
  {
    CutAtBlank(name, n);
    NextToken(name[..n], name[n + 1..]);
  }

  lemma CutAtBlank(name: string, n: nat)
    requires n < |name| && name[n] == ' '
    ensures name == name[..n] + " " + name[n + 1..]
    ensures " " == [' ']
  {
    assert name == name[..n] + name[n..];
    assert name[n..] == " " + name[n + 1..];
  }

  lemma RestIsSingleSpaced(name: string, n: nat)
    requires SingleSpaced(name) && n < |name| && name[n] == ' '
    ensures n + 1 < |name| && SingleSpaced(name[n + 1..])
  {
    var rest := name[n + 1..];
    assert rest[0] == name[n + 1] && rest[|rest| - 1] == name[|name| - 1];
    assert forall i :: 0 <= i < |rest| ==> rest[i] == name[n + 1 + i];
  }

  lemma JoinCons(word: string, words: seq<string>)
    requires words != []
    ensures Join([word] + words, ' ') == word + [' '] + Join(words, ' ')
  {
    assert ([word] + words)[1..] == words;
  }

  lemma {:induction false} JoinedIsSingleSpaced(words: seq<string>)
    requires forall i :: 0 <= i < |words| ==> Word(words[i])
    ensures SingleSpaced(Join(words, ' ')) && (words != [] ==> Join(words, ' ') != "")
  {
    if words != [] {
      var first := words[0];
      assert first[0] in first && first[|first| - 1] in first;
      assert forall i :: 0 <= i < |first| ==> first[i] in first;
      if |words| > 1 {
        JoinedIsSingleSpaced(words[1..]);
        SpacedTogether(first, Join(words[1..], ' '));
      }
    }
  }

  lemma SpacedTogether(word: string, rest: string)
    requires Word(word) && rest != "" && SingleSpaced(rest)
    ensures SingleSpaced(word + [' '] + rest)
  {
    var s := word + [' '] + rest;
    assert forall j :: 0 <= j < |word| ==> word[j] in word;
    forall i | 0 <= i < |s| - 1 && s[i] == ' '
      ensures s[i + 1] != ' '
    {
      assert i >= |word| && s[i + 1] == rest[i - |word|];
      assert i > |word| ==> s[i] == rest[i - |word| - 1];
    }
    assert s[|s| - 1] == rest[|rest| - 1];
  }

  /** Exactly which events come back with the fields they were printed from. */
  lemma NormalIsSame(e: TimerEvent, outputs: nat)
    requires 1 <= outputs <= 16
    ensures Normal(e, outputs).mask == e.mask && Normal(e, outputs).name == e.name
            <==> !NoneSet(e.mask) && SingleSpaced(e.name)
  {
    if NoneSet(e.mask) {
      assert Lowest(outputs)[0];
    }
    if SingleSpaced(e.name) {
      SingleSpacedStays(e.name);
    } else {
      JoinedIsSingleSpaced(Tokens(e.name, ' '));
    }
  }

  /** The manual's weekday range "6-7" stands for Saturday alone: days are 0 to 6. So does "6-0". */
  lemma WeekendRangeIsSaturday()
    ensures ReadMask("6-7", 7, 0) == NoBits()[6 := true] && ReadMask("6-0", 7, 0) == NoBits()[6 := true]
  {
    assert RangeText(6, 7) == "6-7" && RangeText(6, 0) == "6-0" by {
      assert Decimal(6) == "6" && Decimal(7) == "7" && Decimal(0) == "0";
    }
    RangeRead(6, 7, 7, 0);
    RangeRead(6, 0, 7, 0);
  }
}
