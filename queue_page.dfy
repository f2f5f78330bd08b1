/**
 * The display helpers of the student queue page (frontend/queue.js): the
 * wait-time text, the HTML escaper for student names, the status-badge
 * class name, and the grouping of listed entries by service.
 */
module QueuePage {
  import opened Wrappers
  import opened Text
  import opened QueueSchema
  import opened QueueStore

  // ---------------------------------------------------------------------------
  // formatWaitTime

  /** The plural suffix of a unit word: "s" exactly when the count exceeds one. */
  function Plural(count: int): string
  {
    if count > 1 then "s" else ""
  }

  const LESS_THAN_A_MINUTE := "Less than a minute"

  /** The hours part of the text: the count, " hour", and the plural suffix. */
  function HourPart(hours: nat): string
  {
    NatToString(hours) + " hour" + Plural(hours)
  }

  /** The minutes part of a text past the hour. */
  function MinutePart(mins: nat): string
  {
    NatToString(mins) + " minute" + Plural(mins)
  }

  /** The wait in minutes as the page shows it. */
  function FormatWaitTime(minutes: int): (r: string)
    ensures minutes < 1 ==> r == LESS_THAN_A_MINUTE
    ensures minutes >= 1 ==> |r| > 0 && IsDigit(r[0])
  {
    if minutes < 1 then LESS_THAN_A_MINUTE
    else if minutes == 1 then "1 minute"
    else if minutes < 60 then NatToString(minutes) + " minutes"
    else
      var hours := minutes / 60;
      var mins := minutes % 60;
      if mins == 0 then HourPart(hours)
      else HourPart(hours) + " " + MinutePart(mins)
  }

  /** A count followed by its unit word, the word plural exactly when the count exceeds one. */
  function Amount(numeral: string, word: string, unit: string): Option<nat>
  {
    if numeral != "" && AllDigits(numeral) && word == unit + Plural(ParseNat(numeral))
    then Some(ParseNat(numeral))
    else None
  }

  /** Reads a wait-time text back as a number of minutes. */
  function ParseWaitText(text: string): (r: Option<nat>)
  {
    if text == LESS_THAN_A_MINUTE then Some(0)
    else
      var words := Split(text, ' ');
      if |words| == 2 then
        match Amount(words[0], words[1], "minute")
        case Some(m) => Some(m)
        case None =>
          match Amount(words[0], words[1], "hour")
          case Some(h) => Some(60 * h)
          case None => None
      else if |words| == 4 then
        match (Amount(words[0], words[1], "hour"), Amount(words[2], words[3], "minute"))
        case (Some(h), Some(m)) => Some(60 * h + m)
        case _ => None
      else None
  }

  lemma DigitsHaveNoSpace(s: string)
    requires AllDigits(s)
    ensures ' ' !in s
  {
    forall i | 0 <= i < |s| ensures s[i] != ' ' {
      assert IsDigit(s[i]);
    }
  }

  lemma SplitTwo(a: string, b: string)
    requires AllDigits(a) && ' ' !in b
    ensures Split(a + " " + b, ' ') == [a, b]
  {
    DigitsHaveNoSpace(a);
    assert a + " " + b == a + [' '] + b;
    SplitAt(a, b, ' ');
    SplitWithout(b, ' ');
  }

  lemma SplitFour(a: string, b: string, c: string, d: string)
    requires AllDigits(a) && AllDigits(c) && ' ' !in b && ' ' !in d
    ensures Split(a + " " + b + " " + c + " " + d, ' ') == [a, b, c, d]
  {
    DigitsHaveNoSpace(a);
    var tail := c + " " + d;
    assert a + " " + b + " " + c + " " + d == a + [' '] + (b + [' '] + tail);
    SplitAt(a, b + [' '] + tail, ' ');
    SplitAt(b, tail, ' ');
    SplitTwo(c, d);
  }

  lemma AmountOf(n: nat, unit: string)
    ensures Amount(NatToString(n), unit + Plural(n), unit) == Some(n)
  {
    ParseNatOfNatToString(n);
  }

  lemma NotLessThanAMinute(numeral: string, rest: string)
    requires numeral != "" && AllDigits(numeral)
    ensures numeral + rest != LESS_THAN_A_MINUTE
  {
    assert (numeral + rest)[0] == numeral[0];
  }

  /** A part is a count, a space and a unit word. */
  lemma PartWords(n: nat)
    ensures HourPart(n) == NatToString(n) + " " + ("hour" + Plural(n))
    ensures MinutePart(n) == NatToString(n) + " " + ("minute" + Plural(n))
  {
  }

  /** Below an hour the text is the minutes part alone. */
  lemma MinutesText(minutes: int)
    requires 1 <= minutes < 60
    ensures FormatWaitTime(minutes) == MinutePart(minutes)
  {
    if minutes == 1 {
      assert NatToString(1) == "1";
      assert "1" + " minute" + "" == "1 minute";
    } else {
      assert " minute" + "s" == " minutes";
    }
  }

  /** On whole hours the text is the hours part alone. */
  lemma HoursText(hours: int)
    requires hours >= 1
    ensures FormatWaitTime(60 * hours) == HourPart(hours)
  {
    assert (60 * hours) / 60 == hours && (60 * hours) % 60 == 0;
  }

  /** Otherwise it is the hours part and the minutes part. */
  lemma HoursMinutesText(minutes: int)
    requires minutes >= 60 && minutes % 60 != 0
    ensures FormatWaitTime(minutes) == HourPart(minutes / 60) + " " + MinutePart(minutes % 60)
  {
  }

  lemma ReadOneAmount(n: string, word: string, unit: string, value: nat)
    requires AllDigits(n) && n != "" && ' ' !in word
    requires Amount(n, word, unit) == Some(value)
    ensures ParseWaitText(n + " " + word) ==
      match Amount(n, word, "minute")
      case Some(m) => Some(m)
      case None => match Amount(n, word, "hour") case Some(h) => Some(60 * h) case None => None
  {
    NotLessThanAMinute(n, " " + word);
    assert n + " " + word == n + (" " + word);
    SplitTwo(n, word);
  }

  lemma RoundTripMinutes(minutes: int)
    requires 1 <= minutes < 60
    ensures ParseWaitText(FormatWaitTime(minutes)) == Some(minutes)
  {
    MinutesText(minutes);
    PartWords(minutes);
    AmountOf(minutes, "minute");
    ReadOneAmount(NatToString(minutes), "minute" + Plural(minutes), "minute", minutes);
  }

  lemma RoundTripHours(minutes: int)
    requires minutes >= 60 && minutes % 60 == 0
    ensures ParseWaitText(FormatWaitTime(minutes)) == Some(minutes)
  {
    var hours := minutes / 60;
    var word := "hour" + Plural(hours);
    assert minutes == 60 * hours;
    HoursText(hours);
    PartWords(hours);
    AmountOf(hours, "hour");
    assert Amount(NatToString(hours), word, "minute") == None by {
      assert word[0] == 'h';
    }
    ReadOneAmount(NatToString(hours), word, "hour", hours);
  }

  lemma ReadHoursMinutes(h: string, hw: string, m: string, mw: string, hours: nat, mins: nat)
    requires AllDigits(h) && AllDigits(m) && ' ' !in hw && ' ' !in mw && h != ""
    requires Amount(h, hw, "hour") == Some(hours) && Amount(m, mw, "minute") == Some(mins)
    ensures ParseWaitText(h + " " + hw + " " + m + " " + mw) == Some(60 * hours + mins)
  {
    var text := h + " " + hw + " " + m + " " + mw;
    NotLessThanAMinute(h, " " + hw + " " + m + " " + mw);
    assert text == h + (" " + hw + " " + m + " " + mw);
    SplitFour(h, hw, m, mw);
  }

  lemma RoundTripHoursMinutes(minutes: int)
    requires minutes >= 60 && minutes % 60 != 0
    ensures ParseWaitText(FormatWaitTime(minutes)) == Some(minutes)
  {
    var hours: nat, mins: nat := minutes / 60, minutes % 60;
    assert 60 * hours + mins == minutes;
    HoursMinutesText(minutes);
    PartWords(hours);
    PartWords(mins);
    Regroup(NatToString(hours), "hour" + Plural(hours), NatToString(mins), "minute" + Plural(mins));
    AmountOf(hours, "hour");
    AmountOf(mins, "minute");
    ReadHoursMinutes(NatToString(hours), "hour" + Plural(hours), NatToString(mins), "minute" + Plural(mins), hours, mins);
  }

  /** The page's text determines the wait: reading it back gives the minutes, or zero below one minute. */
  lemma FormatWaitTimeRoundTrip(minutes: int)
    ensures ParseWaitText(FormatWaitTime(minutes)) == Some(if minutes < 1 then 0 else minutes)
  {
    if minutes < 1 {
    } else if minutes < 60 {
      RoundTripMinutes(minutes);
    } else if minutes % 60 == 0 {
      RoundTripHours(minutes);
    } else {
      RoundTripHoursMinutes(minutes);
    }
  }

  /** Past an hour, a wait with leftover minutes reads as the whole hours followed by the leftover minutes. */
  lemma FormatWaitTimeHoursThenMinutes(minutes: int)
    requires minutes >= 60 && minutes % 60 != 0
    ensures FormatWaitTime(minutes) == FormatWaitTime(minutes - minutes % 60) + " " + FormatWaitTime(minutes % 60)
  {
    var hours, mins := minutes / 60, minutes % 60;
    var whole := minutes - mins;
    assert whole == 60 * hours;
    assert FormatWaitTime(whole) == HourPart(hours) by {
      HoursText(hours);
    }
    assert FormatWaitTime(mins) == MinutePart(mins) by {
      MinutesText(mins);
    }
    HoursMinutesText(minutes);
  }

  lemma Regroup(a: string, b: string, c: string, d: string)
    ensures a + " " + b + " " + c + " " + d == (a + " " + b) + " " + (c + " " + d)
  {
  }

  lemma FormatWaitTimeExamples()
    ensures FormatWaitTime(0) == "Less than a minute"
    ensures FormatWaitTime(1) == "1 minute"
    ensures FormatWaitTime(60) == "1 hour"
    ensures FormatWaitTime(120) == "2 hours"
  {
    assert NatToString(1) == "1" && NatToString(2) == "2";
    HoursText(1);
    HoursText(2);
    assert "1" + " hour" + "" == "1 hour";
    assert "2" + " hour" + "s" == "2 hours";
  }

  lemma FormatWaitTimeMixedExample()
    ensures FormatWaitTime(135) == "2 hours 15 minutes"
  {
    HoursMinutesText(135);
    TwoHours();
    FifteenMinutes();
    assert "2 hours" + " " + "15 minutes" == "2 hours 15 minutes";
  }

  lemma TwoHours()
    ensures HourPart(2) == "2 hours"
  {
    assert NatToString(2) == "2";
    assert "2" + " hour" + "s" == "2 hours";
  }

  lemma FifteenMinutes()
    ensures MinutePart(15) == "15 minutes"
  {
    assert NatToString(15) == NatToString(1) + [DigitChar(5)];
    assert NatToString(15) == "15";
    assert "15" + " minute" + "s" == "15 minutes";
  }

  // ---------------------------------------------------------------------------
  // escapeHtml

  predicate IsSpecial(c: char) { c == '&' || c == '<' || c == '>' || c == '"' || c == '\'' }

  /** The characters that may not appear raw in the escaped text. */
  predicate IsMarkup(c: char) { c == '<' || c == '>' || c == '"' || c == '\'' }

  /** The entity reference for each special character, every other character as itself. */
  function EscapeChar(c: char): (r: string)
    ensures !IsSpecial(c) ==> r == [c]
    ensures IsSpecial(c) ==> |r| >= 4 && r[0] == '&' && r[|r| - 1] == ';'
    ensures IsSpecial(c) ==> forall i :: 0 <= i < |r| ==> !IsMarkup(r[i])
  {
    if c == '&' then "&amp;"
    else if c == '<' then "&lt;"
    else if c == '>' then "&gt;"
    else if c == '"' then "&quot;"
    else if c == '\'' then "&#039;"
    else [c]
  }

  function EscapeHtml(text: string): (r: string)
    ensures |r| >= |text|
    ensures forall i :: 0 <= i < |r| ==> !IsMarkup(r[i])
    ensures (forall i :: 0 <= i < |text| ==> !IsSpecial(text[i])) ==> r == text
  {
    if text == [] then []
    else
      var head := EscapeChar(text[0]);
      var rest := EscapeHtml(text[1..]);
      assert forall i :: 0 <= i < |head| ==> !IsMarkup(head[i]);
      assert forall i :: 0 <= i < |head + rest| ==> (head + rest)[i] == if i < |head| then head[i] else rest[i - |head|];
      head + rest
  }

  /** Escaping works character by character. */
  lemma {:induction false} EscapeConcat(a: string, b: string)
    ensures EscapeHtml(a + b) == EscapeHtml(a) + EscapeHtml(b)
  {
    if a != [] {
      assert (a + b)[1..] == a[1..] + b;
      EscapeConcat(a[1..], b);
    } else {
      assert a + b == b;
    }
  }

  /** Decodes the five entity references the escaper writes; every other character stands for itself. */
  function UnescapeHtml(s: string): string
    decreases |s|
  {
    if s == [] then []
    else if s[0] == '&' && "&amp;" <= s then "&" + UnescapeHtml(s[5..])
    else if s[0] == '&' && "&lt;" <= s then "<" + UnescapeHtml(s[4..])
    else if s[0] == '&' && "&gt;" <= s then ">" + UnescapeHtml(s[4..])
    else if s[0] == '&' && "&quot;" <= s then "\"" + UnescapeHtml(s[6..])
    else if s[0] == '&' && "&#039;" <= s then "'" + UnescapeHtml(s[6..])
    else [s[0]] + UnescapeHtml(s[1..])
  }

  lemma UnescapeChar(c: char, rest: string)
    ensures UnescapeHtml(EscapeChar(c) + rest) == [c] + UnescapeHtml(rest)
  {
    var s := EscapeChar(c) + rest;
    var n := |EscapeChar(c)|;
    assert s[..n] == EscapeChar(c) && s[n..] == rest;
    if c == '<' || c == '>' {
      assert s[1] == (if c == '<' then 'l' else 'g');
    } else if c == '"' || c == '\'' {
      assert s[1] == (if c == '"' then 'q' else '#');
    }
  }

  /** Escaping loses nothing: the escaped name decodes to the original. */
  lemma {:induction false} EscapeRoundTrip(text: string)
    ensures UnescapeHtml(EscapeHtml(text)) == text
  {
    if text != [] {
      UnescapeChar(text[0], EscapeHtml(text[1..]));
      EscapeRoundTrip(text[1..]);
    }
  }

  lemma EscapeHtmlExample()
    ensures EscapeHtml("<b>") == "&lt;b&gt;"
  {
    assert EscapeHtml(">") == "&gt;";
    assert EscapeHtml("b>") == "b&gt;";
  }

  // ---------------------------------------------------------------------------
  // The status badge class

  /** `toLowerCase` on the letters A-Z; other characters are kept. */
  function ToLowerAscii(c: char): (r: char)
    ensures !('A' <= r <= 'Z')
    ensures 'A' <= c <= 'Z' ==> r as int == c as int + 32
    ensures !('A' <= c <= 'Z') ==> r == c
  {
    if 'A' <= c <= 'Z' then (c as int - 'A' as int + 'a' as int) as char else c
  }

  function LowerCase(s: string): (r: string)
    ensures |r| == |s|
    ensures forall i :: 0 <= i < |r| ==> !('A' <= r[i] <= 'Z')
    ensures forall i :: 0 <= i < |s| && !('A' <= s[i] <= 'Z') ==> r[i] == s[i]
    ensures forall i :: 0 <= i < |s| && 'A' <= s[i] <= 'Z' ==> r[i] as int == s[i] as int + 32
  {
    seq(|s|, i requires 0 <= i < |s| => ToLowerAscii(s[i]))
  }

  /** Index of the first `c` in `s`; |s| when there is none. */
  function IndexOf(s: string, c: char): (k: nat)
    ensures k <= |s|
    ensures k < |s| ==> s[k] == c
    ensures forall i :: 0 <= i < k ==> s[i] != c
  {
    if s == [] then 0 else if s[0] == c then 0 else 1 + IndexOf(s[1..], c)
  }

  /** `s.replace(from, to)` with a one-character string pattern: only the first occurrence is replaced. */
  function ReplaceFirst(s: string, from: char, to: char): (r: string)
    ensures |r| == |s|
    ensures forall i :: 0 <= i < |s| ==> r[i] == (if s[i] == from && from !in s[..i] then to else s[i])
  {
    var k := IndexOf(s, from);
    if k == |s| then s
    else
      assert forall i :: 0 <= i < |s| ==> (from !in s[..i] <==> i <= k) by {
        forall i | 0 <= i < |s| ensures from !in s[..i] <==> i <= k {
          if i > k { assert s[..i][k] == from; }
        }
      }
      s[..k] + [to] + s[k + 1..]
  }

  /** The class list given to the status badge of the student's own entry. */
  function StatusBadgeClass(status: string): (r: string)
    ensures "value status-badge status-" <= r
    ensures |r| == |"value status-badge status-"| + |status|
  {
    "value status-badge status-" + ReplaceFirst(LowerCase(status), ' ', '-')
  }

  /** A status with at most one space becomes a class name without spaces. */
  lemma StatusBadgeSingleToken(status: string)
    requires forall i, j :: 0 <= i < j < |status| ==> !(status[i] == ' ' && status[j] == ' ')
    ensures ' ' !in ReplaceFirst(LowerCase(status), ' ', '-')
  {
    var low := LowerCase(status);
    var k := IndexOf(low, ' ');
    forall i | 0 <= i < |low| ensures low[i] == ' ' <==> status[i] == ' ' { }
    if k < |low| {
      var r := ReplaceFirst(low, ' ', '-');
      forall i | 0 <= i < |r| ensures r[i] != ' ' {
        if i > k {
          assert r[i] == low[i];
        }
      }
    }
  }

  lemma BadgeOf(status: string, lower: string, k: nat, suffix: string)
    requires LowerCase(status) == lower && IndexOf(lower, ' ') == k
    requires suffix == if k < |lower| then lower[..k] + "-" + lower[k + 1..] else lower
    ensures StatusBadgeClass(status) == "value status-badge status-" + suffix
  {
  }

  lemma BadgeWithoutSpace(status: string, lower: string)
    requires LowerCase(status) == lower && ' ' !in lower
    ensures StatusBadgeClass(status) == "value status-badge status-" + lower
  {
    assert IndexOf(lower, ' ') == |lower|;
  }

  lemma StatusBadgeWaiting()
    ensures StatusBadgeClass(StatusName(Waiting)) == "value status-badge status-" + "waiting"
  {
    LowerWaiting();
    BadgeWithoutSpace(StatusName(Waiting), "waiting");
  }

  lemma LowerWaiting()
    ensures LowerCase("Waiting") == "waiting" && ' ' !in "waiting"
  {
  }

  lemma StatusBadgeInProgress()
    ensures StatusBadgeClass(StatusName(InProgress)) == "value status-badge status-" + "in-progress"
  {
    LowerInProgress();
    SpaceInProgress();
    BadgeOf(StatusName(InProgress), "in progress", 2, "in-progress");
  }

  lemma LowerInProgress()
    ensures LowerCase("In Progress") == "in progress"
  {
  }

  lemma SpaceInProgress()
    ensures IndexOf("in progress", ' ') == 2
    ensures "in progress"[..2] + "-" + "in progress"[3..] == "in-progress"
  {
    assert "in progress"[2] == ' ';
  }

  lemma StatusBadgeCompleted()
    ensures StatusBadgeClass(StatusName(Completed)) == "value status-badge status-" + "completed"
  {
    LowerCompleted();
    BadgeWithoutSpace(StatusName(Completed), "completed");
  }

  lemma LowerCompleted()
    ensures LowerCase("Completed") == "completed" && ' ' !in "completed"
  {
  }

  lemma StatusBadgeCancelled()
    ensures StatusBadgeClass(StatusName(Cancelled)) == "value status-badge status-" + "cancelled"
  {
    LowerCancelled();
    BadgeWithoutSpace(StatusName(Cancelled), "cancelled");
  }

  lemma LowerCancelled()
    ensures LowerCase("Cancelled") == "cancelled" && ' ' !in "cancelled"
  {
  }

  /** The first two letters after the class prefix tell the statuses apart. */
  function BadgeTag(s: Status): (char, char)
  {
    match s
    case Waiting => ('w', 'a')
    case InProgress => ('i', 'n')
    case Completed => ('c', 'o')
    case Cancelled => ('c', 'a')
  }

  lemma BadgeTagOf(s: Status)
    ensures var c := StatusBadgeClass(StatusName(s));
      var n := |"value status-badge status-"|;
      |c| > n + 1 && (c[n], c[n + 1]) == BadgeTag(s)
  {
    match s
    case Waiting => StatusBadgeWaiting();
    case InProgress => StatusBadgeInProgress();
    case Completed => StatusBadgeCompleted();
    case Cancelled => StatusBadgeCancelled();
  }

  /** Each status gets a badge class of its own. */
  lemma StatusBadgeClassesDistinct(s: Status, t: Status)
    requires s != t
    ensures StatusBadgeClass(StatusName(s)) != StatusBadgeClass(StatusName(t))
  {
    BadgeTagOf(s);
    BadgeTagOf(t);
  }

  // ---------------------------------------------------------------------------
  // Grouping the listed entries by service (displayQueues)

  function ServiceFilter(serviceType: string): Filter
  {
    Filter(Some(serviceType), None)
  }

  /** The services that occur in `qs`. */
  function Services(qs: seq<QueueEntry>): set<string>
  {
    set q | q in qs :: q.serviceType
  }

  /** The services of `qs` in order of first appearance: the order in which groups are created. */
  function ServiceOrder(qs: seq<QueueEntry>): (keys: seq<string>)
    ensures |keys| <= |qs|
    decreases |qs|
  {
    if qs == [] then []
    else
      var prev := ServiceOrder(qs[..|qs| - 1]);
      var last := qs[|qs| - 1];
      if last.serviceType in prev then prev else prev + [last.serviceType]
  }

  /** Every service of the listing heads exactly one group, and no other key appears. */
  lemma {:induction false} ServiceOrderKeys(qs: seq<QueueEntry>)
    ensures forall k :: k in ServiceOrder(qs) <==> k in Services(qs)
    ensures forall i, j :: 0 <= i < j < |ServiceOrder(qs)| ==> ServiceOrder(qs)[i] != ServiceOrder(qs)[j]
    decreases |qs|
  {
    if qs != [] {
      var init, last := qs[..|qs| - 1], qs[|qs| - 1];
      assert qs == init + [last];
      ServiceOrderKeys(init);
      ServiceSetAppend(init, last);
    }
  }

  lemma ServiceOrderAppend(qs: seq<QueueEntry>, q: QueueEntry)
    ensures ServiceOrder(qs + [q]) ==
      if q.serviceType in ServiceOrder(qs) then ServiceOrder(qs) else ServiceOrder(qs) + [q.serviceType]
  {
    assert (qs + [q])[..|qs|] == qs;
  }

  lemma ServiceSetAppend(qs: seq<QueueEntry>, q: QueueEntry)
    ensures Services(qs + [q]) == Services(qs) + {q.serviceType}
  {
    assert forall x :: x in qs + [q] <==> x in qs || x == q;
  }

  lemma SelectServiceAppend(qs: seq<QueueEntry>, q: QueueEntry)
    ensures forall k :: (Select(qs + [q], ServiceFilter(k)) ==
      Select(qs, ServiceFilter(k)) + (if q.serviceType == k then [q] else []))
  {
    forall k ensures Select(qs + [q], ServiceFilter(k)) ==
      Select(qs, ServiceFilter(k)) + (if q.serviceType == k then [q] else [])
    {
      SelectAppend(qs, q, ServiceFilter(k));
    }
  }

  lemma {:induction false} SelectNone(es: seq<QueueEntry>, f: Filter)
    requires forall e :: e in es ==> !Matches(e, f)
    ensures Select(es, f) == []
  {
    if es != [] {
      assert es[0] in es;
      assert forall e :: e in es[1..] ==> e in es;
      SelectNone(es[1..], f);
    }
  }

  /**
   * One pass of the grouping loop: `mid` is the dictionary once the group of
   * `q`'s service exists, `after` once `q` has been pushed onto it.
   */
  lemma GroupStep(before: map<string, seq<QueueEntry>>, mid: map<string, seq<QueueEntry>>,
                  after: map<string, seq<QueueEntry>>, prefix: seq<QueueEntry>, q: QueueEntry)
    requires before.Keys == Services(prefix)
    requires forall k :: k in before ==> before[k] == Select(prefix, ServiceFilter(k))
    requires mid == if q.serviceType in before then before else before[q.serviceType := []]
    requires after == mid[q.serviceType := mid[q.serviceType] + [q]]
    ensures forall k :: k in after ==> after[k] == Select(prefix + [q], ServiceFilter(k))
  {
    SelectServiceAppend(prefix, q);
    if q.serviceType !in before {
      assert forall x :: x in prefix ==> x.serviceType in before;
      SelectNone(prefix, ServiceFilter(q.serviceType));
    }
  }

  lemma GroupKeysStep(before: map<string, seq<QueueEntry>>, mid: map<string, seq<QueueEntry>>,
                      after: map<string, seq<QueueEntry>>, prefix: seq<QueueEntry>, q: QueueEntry)
    requires before.Keys == Services(prefix)
    requires mid == if q.serviceType in before then before else before[q.serviceType := []]
    requires after == mid[q.serviceType := mid[q.serviceType] + [q]]
    ensures after.Keys == Services(prefix + [q])
  {
    ServiceSetAppend(prefix, q);
  }

  lemma GroupOrderStep(before: map<string, seq<QueueEntry>>, beforeKeys: seq<string>, afterKeys: seq<string>,
                       prefix: seq<QueueEntry>, q: QueueEntry)
    requires before.Keys == Services(prefix)
    requires beforeKeys == ServiceOrder(prefix)
    requires afterKeys == if q.serviceType in before then beforeKeys else beforeKeys + [q.serviceType]
    ensures afterKeys == ServiceOrder(prefix + [q])
  {
    ServiceOrderAppend(prefix, q);
    ServiceOrderKeys(prefix);
  }

  /** The dictionary and key list the grouping loop has built from `prefix`. */
  predicate Grouped(groups: map<string, seq<QueueEntry>>, keys: seq<string>, prefix: seq<QueueEntry>)
  {
    && groups.Keys == Services(prefix)
    && (forall k :: k in groups ==> groups[k] == Select(prefix, ServiceFilter(k)))
    && keys == ServiceOrder(prefix)
  }

  lemma GroupLoopStep(before: map<string, seq<QueueEntry>>, mid: map<string, seq<QueueEntry>>,
                      after: map<string, seq<QueueEntry>>, beforeKeys: seq<string>, afterKeys: seq<string>,
                      prefix: seq<QueueEntry>, q: QueueEntry)
    requires Grouped(before, beforeKeys, prefix)
    requires mid == if q.serviceType in before then before else before[q.serviceType := []]
    requires after == mid[q.serviceType := mid[q.serviceType] + [q]]
    requires afterKeys == if q.serviceType in before then beforeKeys else beforeKeys + [q.serviceType]
    ensures Grouped(after, afterKeys, prefix + [q])
  {
    GroupKeysStep(before, mid, after, prefix, q);
    GroupOrderStep(before, beforeKeys, afterKeys, prefix, q);
    GroupStep(before, mid, after, prefix, q);
  }

  /** One pass of the grouping loop: create the group of `q`'s service if it is missing, then push `q`. */
  function AddToGroup(groups: map<string, seq<QueueEntry>>, q: QueueEntry): map<string, seq<QueueEntry>>
  {
    var created := if q.serviceType in groups then groups else groups[q.serviceType := []];
    created[q.serviceType := created[q.serviceType] + [q]]
  }

  /** The dictionary the grouping loop has built after the entries of `qs`. */
  function GroupsOf(qs: seq<QueueEntry>): map<string, seq<QueueEntry>>
    decreases |qs|
  {
    if qs == [] then map[] else AddToGroup(GroupsOf(qs[..|qs| - 1]), qs[|qs| - 1])
  }

  lemma GroupsOfAppend(qs: seq<QueueEntry>, q: QueueEntry)
    ensures GroupsOf(qs + [q]) == AddToGroup(GroupsOf(qs), q)
  {
    assert (qs + [q])[..|qs|] == qs;
  }

  /** The dictionary built from `qs` holds one group per service, with exactly its entries. */
  lemma {:induction false} GroupsOfGrouped(qs: seq<QueueEntry>)
    ensures Grouped(GroupsOf(qs), ServiceOrder(qs), qs)
    decreases |qs|
  {
    if qs == [] {
      GroupedEmpty(qs);
    } else {
      var init, last := qs[..|qs| - 1], qs[|qs| - 1];
      assert qs == init + [last];
      GroupsOfGrouped(init);
      var before := GroupsOf(init);
      var k := last.serviceType;
      GroupLoopStep(before, if k in before then before else before[k := []], AddToGroup(before, last),
        ServiceOrder(init), if k in before then ServiceOrder(init) else ServiceOrder(init) + [k], init, last);
    }
  }

  /** The key list grows exactly when a new group is created. */
  lemma KeysAppend(qs: seq<QueueEntry>, q: QueueEntry)
    ensures ServiceOrder(qs + [q]) ==
      if q.serviceType in GroupsOf(qs) then ServiceOrder(qs) else ServiceOrder(qs) + [q.serviceType]
  {
    GroupsOfGrouped(qs);
    ServiceOrderAppend(qs, q);
    ServiceOrderKeys(qs);
  }

  lemma GroupedEmpty(qs: seq<QueueEntry>)
    requires qs == []
    ensures Grouped(map[], [], qs)
  {
    assert Services(qs) == {};
  }

  /** The body of the grouping loop: the group is created on first sight of its service, then `q` is pushed. */
  method PushEntry(groups: map<string, seq<QueueEntry>>, keys: seq<string>, q: QueueEntry)
    returns (groups': map<string, seq<QueueEntry>>, keys': seq<string>)
    ensures groups' == AddToGroup(groups, q)
    ensures keys' == if q.serviceType in groups then keys else keys + [q.serviceType]
  {
    groups', keys' := groups, keys;
    if q.serviceType !in groups' {
      groups' := groups'[q.serviceType := []];
      keys' := keys' + [q.serviceType];
    }
    groups' := groups'[q.serviceType := groups'[q.serviceType] + [q]];
  }

  /**
   * Builds the group dictionary: one group per service, each holding that
   * service's entries in listing order, and the order in which the groups
   * were created.
   */
  method GroupByService(queues: seq<QueueEntry>) returns (groups: map<string, seq<QueueEntry>>, keys: seq<string>)
    ensures groups.Keys == Services(queues)
    ensures forall k :: k in groups ==> groups[k] == Select(queues, ServiceFilter(k))
    ensures keys == ServiceOrder(queues)
  {
    groups := map[];
    keys := [];
    var i := 0;
    while i < |queues|
      invariant 0 <= i <= |queues|
      invariant groups == GroupsOf(queues[..i])
      invariant keys == ServiceOrder(queues[..i])
    {
      var q := queues[i];
      GroupsOfAppend(queues[..i], q);
      KeysAppend(queues[..i], q);
      groups, keys := PushEntry(groups, keys, q);
      assert queues[..i + 1] == queues[..i] + [q];
      i := i + 1;
    }
    assert queues[..i] == queues;
    GroupsOfSpec(queues);
  }

  lemma GroupsOfSpec(qs: seq<QueueEntry>)
    ensures GroupsOf(qs).Keys == Services(qs)
    ensures forall k :: k in GroupsOf(qs) ==> GroupsOf(qs)[k] == Select(qs, ServiceFilter(k))
  {
    GroupsOfGrouped(qs);
  }

  /** Every listed entry sits in exactly one group: the one of its own service. */
  lemma EntryInOneGroup(qs: seq<QueueEntry>, q: QueueEntry, k: string)
    requires q in qs
    ensures q in Select(qs, ServiceFilter(k)) <==> k == q.serviceType
  {
    SelectMembers(qs, ServiceFilter(k));
  }

  /** The header counts of the groups, added up over the given keys. */
  function GroupTotal(qs: seq<QueueEntry>, keys: seq<string>): nat
  {
    if keys == [] then 0 else |Select(qs, ServiceFilter(keys[0]))| + GroupTotal(qs, keys[1..])
  }

  lemma {:induction false} GroupTotalAppendEntry(qs: seq<QueueEntry>, q: QueueEntry, keys: seq<string>)
    requires forall i, j :: 0 <= i < j < |keys| ==> keys[i] != keys[j]
    ensures GroupTotal(qs + [q], keys) == GroupTotal(qs, keys) + (if q.serviceType in keys then 1 else 0)
  {
    if keys != [] {
      SelectAppend(qs, q, ServiceFilter(keys[0]));
      GroupTotalAppendEntry(qs, q, keys[1..]);
      assert q.serviceType in keys <==> q.serviceType == keys[0] || q.serviceType in keys[1..];
      assert keys[0] !in keys[1..];
    }
  }

  lemma {:induction false} GroupTotalAppendKey(qs: seq<QueueEntry>, keys: seq<string>, k: string)
    ensures GroupTotal(qs, keys + [k]) == GroupTotal(qs, keys) + |Select(qs, ServiceFilter(k))|
  {
    if keys == [] {
      assert GroupTotal(qs, [k]) == |Select(qs, ServiceFilter(k))| + GroupTotal(qs, []);
    } else {
      assert (keys + [k])[1..] == keys[1..] + [k];
      GroupTotalAppendKey(qs, keys[1..], k);
    }
  }

  /** The group sizes shown in the headers add up to the number of listed entries. */
  lemma {:induction false} GroupSizesSum(qs: seq<QueueEntry>)
    ensures GroupTotal(qs, ServiceOrder(qs)) == |qs|
    decreases |qs|
  {
    if qs != [] {
      var init, last := qs[..|qs| - 1], qs[|qs| - 1];
      assert qs == init + [last];
      var keys := ServiceOrder(init);
      GroupSizesSum(init);
      ServiceOrderKeys(init);
      ServiceOrderAppend(init, last);
      GroupTotalAppendEntry(init, last, keys);
      if last.serviceType !in keys {
        GroupTotalAppendKey(qs, keys, last.serviceType);
        assert forall x :: x in init ==> x.serviceType in Services(init);
        SelectNone(init, ServiceFilter(last.serviceType));
        SelectAppend(init, last, ServiceFilter(last.serviceType));
      }
    }
  }
}
