/**
 * The weekly training template of the month generator: which sessions a day
 * of the given weekday gets in summer (April to September) and in winter.
 */
module Schedule {

  /** Seconds since midnight; the `time` and `end_time` columns hold values of this kind. */
  type TimeOfDay = t: nat | t < 86400

  function Hms(h: nat, m: nat, s: nat): TimeOfDay
    requires h < 24 && m < 60 && s < 60
  {
    h * 3600 + m * 60 + s
  }

  /** One slot of the template: start, end and topic of a session to create. */
  datatype SessionDef = SessionDef(start: TimeOfDay, end: TimeOfDay, topic: string)

  const YouthTraining: string := "Training für Jugendliche"
  const FreePlay: string := "Freies Spiel"
  const AdultTraining: string := "Training für Erwachsene"
  const OpenSession: string := "Offen"

  /** The venue every generated session is given. */
  const DefaultLocation: string := "Sporthalle Gymnasium, Tettnang"

  predicate IsTrainingDay(weekday: int)
  {
    weekday == 3 || weekday == 5 || weekday == 6
  }

  /** The slots of one day, in the order the generator creates them. */
  function Resolve(weekday: int, isSummer: bool): (defs: seq<SessionDef>)
    ensures defs != [] <==> IsTrainingDay(weekday)
    ensures |defs| <= 2
    ensures |defs| == 2 <==> weekday == 5 || (weekday == 3 && isSummer)
    ensures forall i :: 0 <= i < |defs| ==> defs[i].start < defs[i].end
    ensures forall i, j :: 0 <= i < j < |defs| ==> defs[i].end <= defs[j].start
  {
    if weekday == 3 then
      if isSummer then
        [SessionDef(Hms(17, 30, 0), Hms(19, 30, 0), YouthTraining),
         SessionDef(Hms(19, 30, 0), Hms(22, 0, 0), FreePlay)]
      else
        [SessionDef(Hms(20, 0, 0), Hms(22, 0, 0), FreePlay)]
    else if weekday == 5 then
      if isSummer then
        [SessionDef(Hms(17, 30, 0), Hms(19, 30, 0), YouthTraining),
         SessionDef(Hms(19, 30, 0), Hms(22, 0, 0), AdultTraining)]
      else
        [SessionDef(Hms(17, 0, 0), Hms(19, 0, 0), YouthTraining),
         SessionDef(Hms(20, 30, 0), Hms(22, 15, 0), AdultTraining)]
    else if weekday == 6 then
      if isSummer then
        [SessionDef(Hms(10, 0, 0), Hms(12, 0, 0), OpenSession)]
      else
        [SessionDef(Hms(10, 0, 0), Hms(12, 0, 0), YouthTraining)]
    else
      []
  }

  /** Every topic the template uses is one of the four labels. */
  lemma TemplateTopics(weekday: int, isSummer: bool, i: nat)
    requires i < |Resolve(weekday, isSummer)|
    ensures Resolve(weekday, isSummer)[i].topic in {YouthTraining, FreePlay, AdultTraining, OpenSession}
  {
  }

  /** Wednesday: youth training then free play in summer, free play alone from 20:00 in winter. */
  lemma WednesdaySlots(isSummer: bool)
    ensures Resolve(3, isSummer) == (
      if isSummer then
        [SessionDef(Hms(17, 30, 0), Hms(19, 30, 0), YouthTraining), SessionDef(Hms(19, 30, 0), Hms(22, 0, 0), FreePlay)]
      else
        [SessionDef(Hms(20, 0, 0), Hms(22, 0, 0), FreePlay)])
  {
  }

  /** Friday: youth then adult training in both seasons, at 17:30 and 19:30 in summer, 17:00 and 20:30 in winter. */
  lemma FridaySlots(isSummer: bool)
    ensures Resolve(5, isSummer) == (
      if isSummer then
        [SessionDef(Hms(17, 30, 0), Hms(19, 30, 0), YouthTraining), SessionDef(Hms(19, 30, 0), Hms(22, 0, 0), AdultTraining)]
      else
        [SessionDef(Hms(17, 0, 0), Hms(19, 0, 0), YouthTraining), SessionDef(Hms(20, 30, 0), Hms(22, 15, 0), AdultTraining)])
  {
  }

  /** Saturday always runs 10:00 to 12:00; only the topic depends on the season. */
  lemma SaturdaySlot(isSummer: bool)
    ensures |Resolve(6, isSummer)| == 1
    ensures Resolve(6, isSummer)[0].start == Hms(10, 0, 0) && Resolve(6, isSummer)[0].end == Hms(12, 0, 0)
    ensures Resolve(6, isSummer)[0].topic == if isSummer then OpenSession else YouthTraining
  {
  }
}
