/**
 * The two validating steps of the add-task conversation: the typed date
 * (`task_date_received`) and the typed time (`task_time_received`, up to
 * the point where it saves the task).
 */
module Validation {
  import opened Wrappers
  import opened Calendar
  import opened DateText

  /** The conversation state a handler returns: TASK_DATE, TASK_TIME or END. */
  datatype Step = AskDate | AskTime | Finished

  /** Outcome of the date step; an accepted date is kept as its `%d.%m.%Y` text. */
  datatype DateReply = BadDateFormat | DateInPast | DateAccepted(stored: string)
  {
    /** The state the handler returns: both rejections ask for the date again. */
    function Next(): Step
    {
      if DateAccepted? then AskTime else AskDate
    }
  }

  /** Outcome of the time step; an accepted time is kept as its `%H:%M` text with its instant. */
  datatype TimeReply = BadTimeFormat | TimeInPast | TimeAccepted(stored: string, at: Instant)
  {
    /** The state the handler returns: both rejections ask for the time again. */
    function Next(): Step
    {
      if TimeAccepted? then Finished else AskTime
    }
  }

  /**
   * The date step: `/` becomes `.`, the text must parse as `%d.%m.%Y`,
   * and a date before today's date is refused.
   */
  function DateStep(text: string, now: Instant): (r: DateReply)
    ensures r.BadDateFormat? <==> ParseDate(Normalise(text)).None?
    ensures r.DateInPast? <==>
      ParseDate(Normalise(text)).Some? && DayNumber(ParseDate(Normalise(text)).value) < Today(now)
    ensures r.DateAccepted? ==>
      ParseDate(r.stored) == ParseDate(Normalise(text))
      && DayNumber(ParseDate(r.stored).value) >= Today(now)
    ensures r.Next() == AskDate <==> !r.DateAccepted?
  {
    match ParseDate(Normalise(text))
    case None => BadDateFormat
    case Some(d) =>
      if DayNumber(d) < Today(now) then DateInPast
      else FormatDateRoundTrip(d); DateAccepted(FormatDate(d))
  }

  /**
   * The time step: the text must parse as `%H:%M`; it is stored as its
   * `%H:%M` text, the stored date and time are parsed together, and an
   * instant earlier than `now` is refused.
   */
  function TimeStep(storedDate: string, text: string, now: Instant): (r: TimeReply)
    ensures r.BadTimeFormat? <==> ParseTime(text).None? || ParseDate(storedDate).None?
    ensures r.TimeInPast? <==>
      ParseTime(text).Some? && ParseDate(storedDate).Some?
      && InstantOf(ParseDate(storedDate).value, ParseTime(text).value) < now
    ensures r.TimeAccepted? ==>
      var d, t := ParseDate(storedDate).value, ParseTime(text).value;
      ParseTime(r.stored) == Some(t) && r.at == InstantOf(d, t) && now <= r.at
    ensures r.Next() == AskTime <==> !r.TimeAccepted?
  {
    match ParseTime(text)
    case None => BadTimeFormat
    case Some(t) =>
      var stored := FormatTime(t);
      FormatTimeRoundTrip(t);
      match (ParseDate(storedDate), ParseTime(stored))
      case (Some(d), Some(t')) =>
        var at := InstantOf(d, t');
        if at < now then TimeInPast else TimeAccepted(stored, at)
      case _ => BadTimeFormat
  }

  /** Typing a date with `/` separators gives the same reply as typing it with `.`. */
  lemma SlashDateStepAsDotDateStep(text: string, dotted: string, now: Instant)
    requires SlashesForDots(text, dotted)
    ensures DateStep(text, now) == DateStep(dotted, now)
  {
    NormaliseAgrees(text, dotted);
  }

  /**
   * A date accepted at the date step and a time accepted at the later time
   * step give back the instant of exactly the date and time the user
   * typed; each step reads the clock itself.
   */
  lemma AcceptedStepsGiveTypedInstant(dateText: string, timeText: string, dateNow: Instant, timeNow: Instant)
    requires dateNow <= timeNow
    requires DateStep(dateText, dateNow).DateAccepted?
    requires ParseTime(timeText).Some?
    ensures var d := ParseDate(Normalise(dateText)).value;
      var r := TimeStep(DateStep(dateText, dateNow).stored, timeText, timeNow);
      (r.TimeAccepted? <==> timeNow <= InstantOf(d, ParseTime(timeText).value))
      && (r.TimeAccepted? ==> r.at == InstantOf(d, ParseTime(timeText).value) && Today(r.at) >= Today(dateNow))
  {
    var d := ParseDate(Normalise(dateText)).value;
    assert ParseDate(DateStep(dateText, dateNow).stored) == Some(d);
  }
}
