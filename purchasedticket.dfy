/** The purchase panel shown to a user holding an offer: whether the offer has
    lapsed, the countdown text refreshed every second, and the guard of the
    purchase handler. `now` stands for the clock reading of one refresh. */
module PurchasedTicket {
  import opened Wrappers
  import opened WaitingList
  import opened Text

  /** `queuePosition?.offerExpiresAt ?? 0`: a missing entry or deadline reads as 0. */
  function OfferExpiresAt(queuePosition: Query<QueueEntry>): (t: int)
    ensures queuePosition.Value? && queuePosition.value.offerExpiresAt.Some? ==>
              t == queuePosition.value.offerExpiresAt.value
    ensures !(queuePosition.Value? && queuePosition.value.offerExpiresAt.Some?) ==> t == 0
  {
    match queuePosition
    case Value(q) => q.offerExpiresAt.GetOr(0)
    case _ => 0
  }

  /** The offer has lapsed once the clock is strictly past the deadline. */
  function IsExpired(queuePosition: Query<QueueEntry>, now: int): (r: bool)
    ensures OfferExpiresAt(queuePosition) == 0 && now > 0 ==> r
    ensures r <==> OfferExpiresAt(queuePosition) < now
  {
    now > OfferExpiresAt(queuePosition)
  }

  /** The plural suffix: only counts above one take it, so 0 and 1 are singular. */
  function Plural(n: int): (s: string)
    ensures s == "s" <==> n > 1
    ensures s == "" <==> n <= 1
  {
    if n > 1 then "s" else ""
  }

  /** Whole minutes and the seconds left over of a non-negative span of
      milliseconds (`Math.floor(diff / 1000 / 60)` and
      `Math.floor((diff / 1000) % 60)`). */
  datatype Split = Split(minutes: nat, seconds: nat)

  function SplitRemaining(diff: nat): (r: Split)
    ensures r.seconds < 60
    ensures r.minutes * 60 + r.seconds == diff / 1000
  {
    Split(diff / 60000, (diff / 1000) % 60)
  }

  /** The text `calculateTimeRemaining` sets on one refresh. */
  function TimeRemaining(queuePosition: Query<QueueEntry>, now: int): (text: string)
    ensures IsExpired(queuePosition, now) ==> text == "Expired"
    ensures !IsExpired(queuePosition, now) ==> text == FormatRemaining(OfferExpiresAt(queuePosition) - now)
  {
    if IsExpired(queuePosition, now) then "Expired"
    else FormatRemaining(OfferExpiresAt(queuePosition) - now)
  }

  /** `handlePurchase` goes on only for a signed-in user whose entry has
      status "offered"; otherwise it returns at once. */
  function PurchaseAllowed(signedIn: bool, queuePosition: Query<QueueEntry>): (r: bool)
    ensures r ==> signedIn
    ensures r ==> queuePosition.Value? && queuePosition.value.status == Offered
    ensures signedIn && queuePosition.Value? && queuePosition.value.status == Offered ==> r
  {
    signedIn && queuePosition.Truthy() && queuePosition.value.status == Offered
  }

  /** What a countdown text tells its reader: expired, or whole minutes and
      the seconds left over. */
  datatype Reading = ReadExpired | ReadRemaining(minutes: nat, seconds: nat)

  /** The unit word the reader expects for a count: plural only above one. */
  function Spelled(unit: string, count: nat): string {
    if count > 1 then unit + "s" else unit
  }

  /** Reads a countdown text. It accepts exactly "Expired", "S second[s]"
      with S below 60, and "M minute[s] S second[s]" with M positive and S
      below 60, numbers without leading zeros and each unit plural only for
      counts above one. */
  function ReadCountdown(text: string): Option<Reading> {
    if text == "Expired" then Some(ReadExpired)
    else
      var ws := Words(text);
      if |ws| == 2 && ParseNat(ws[0]).Some? then
        var sec := ParseNat(ws[0]).value;
        if sec < 60 && ws[1] == Spelled("second", sec) then Some(ReadRemaining(0, sec)) else None
      else if |ws| == 4 && ParseNat(ws[0]).Some? && ParseNat(ws[2]).Some? then
        var min, sec := ParseNat(ws[0]).value, ParseNat(ws[2]).value;
        if min > 0 && sec < 60 && ws[1] == Spelled("minute", min) && ws[3] == Spelled("second", sec)
        then Some(ReadRemaining(min, sec))
        else None
      else None
  }

  /** The words of a text that reads as a time left are fixed by the reading. */
  lemma WordsOfReading(t: string, m: nat, s: nat)
    requires ReadCountdown(t) == Some(ReadRemaining(m, s))
    ensures Words(t) == if m > 0 then [NatToString(m), Spelled("minute", m), NatToString(s), Spelled("second", s)]
                        else [NatToString(s), Spelled("second", s)]
  {
    var ws := Words(t);
    ParseNatCanonical(ws[0]);
    if |ws| == 4 {
      ParseNatCanonical(ws[2]);
    }
  }

  /** Two texts with the same reading are the same text. */
  lemma ReadingDeterminesText(t1: string, t2: string)
    requires ReadCountdown(t1).Some? && ReadCountdown(t1) == ReadCountdown(t2)
    ensures t1 == t2
  {
    match ReadCountdown(t1).value
    case ReadExpired =>
    case ReadRemaining(m, s) =>
      WordsOfReading(t1, m, s);
      WordsOfReading(t2, m, s);
      UnwordsWords(t1);
      UnwordsWords(t2);
  }

  /** The reader is strict: a count of 0 or 1 with a plural unit is not a
      countdown text, and neither is a minute or more written in seconds. */
  lemma ReaderRejectsPluralSingular(n: nat)
    requires n <= 1
    ensures ReadCountdown(NatToString(n) + " seconds") == None
  {
    var ws := [NatToString(n), "seconds"];
    assert NatToString(n) + " seconds" == Unwords(ws);
    WordsUnwords(ws);
    ParseNatToString(n);
  }

  lemma ReaderRejectsSecondsOverMinute(n: nat)
    requires n >= 60
    ensures ReadCountdown(NatToString(n) + " seconds") == None
  {
    var ws := [NatToString(n), "seconds"];
    assert NatToString(n) + " seconds" == Unwords(ws);
    WordsUnwords(ws);
    ParseNatToString(n);
  }

  /** The two template literals as words joined by spaces. */
  lemma MinutesTextAsWords(a: string, pm: string, c: string, ps: string)
    ensures a + " minute" + pm + " " + c + " second" + ps == Unwords([a, "minute" + pm, c, "second" + ps])
  {
    var b, d := "minute" + pm, "second" + ps;
    var ws := [a, b, c, d];
    assert ws[1..][1..] == ws[2..];
    assert ws[2..][1..] == [d];
    assert Unwords(ws[2..]) == c + " " + d;
    assert Unwords(ws[1..]) == b + " " + (c + " " + d);
    assert a + " minute" + pm == a + " " + b;
    assert a + " minute" + pm + " " + c + " second" + ps == (a + " " + b) + " " + (c + " " + d);
  }

  lemma SecondsTextAsWords(c: string, ps: string)
    ensures c + " second" + ps == Unwords([c, "second" + ps])
  {
  }

  /** The long form is read as its minutes and seconds. */
  lemma ReadMinutesWords(m: nat, s: nat)
    requires m > 0 && s < 60
    ensures ReadCountdown(Unwords([NatToString(m), "minute" + Plural(m), NatToString(s), "second" + Plural(s)]))
         == Some(ReadRemaining(m, s))
  {
    var ws := [NatToString(m), "minute" + Plural(m), NatToString(s), "second" + Plural(s)];
    var text := Unwords(ws);
    WordsUnwords(ws);
    ParseNatToString(m);
    ParseNatToString(s);
    assert text[0] == NatToString(m)[0];
  }

  /** The short form is read as zero minutes and its seconds. */
  lemma ReadSecondsWords(s: nat)
    requires s < 60
    ensures ReadCountdown(Unwords([NatToString(s), "second" + Plural(s)])) == Some(ReadRemaining(0, s))
  {
    var ws := [NatToString(s), "second" + Plural(s)];
    var text := Unwords(ws);
    WordsUnwords(ws);
    ParseNatToString(s);
    assert text[0] == NatToString(s)[0];
  }

  /** The countdown text for `diff` milliseconds left: the long form exactly
      when a whole minute is left, each unit plural only above one. Its
      reading is the split of the span, and no other text reads so. */
  function FormatRemaining(diff: nat): (text: string)
    ensures ReadCountdown(text) == Some(ReadRemaining(diff / 60000, (diff / 1000) % 60))
  {
    var split := SplitRemaining(diff);
    var minutes, seconds := split.minutes, split.seconds;
    if minutes > 0 then
      MinutesTextAsWords(NatToString(minutes), Plural(minutes), NatToString(seconds), Plural(seconds));
      ReadMinutesWords(minutes, seconds);
      NatToString(minutes) + " minute" + Plural(minutes) + " " + NatToString(seconds) + " second" + Plural(seconds)
    else
      SecondsTextAsWords(NatToString(seconds), Plural(seconds));
      ReadSecondsWords(seconds);
      NatToString(seconds) + " second" + Plural(seconds)
  }

  /** A text is the countdown for a span exactly when it reads as that span's
      minutes and seconds. */
  lemma FormatRemainingUnique(diff: nat, text: string)
    ensures ReadCountdown(text) == Some(ReadRemaining(diff / 60000, (diff / 1000) % 60)) <==> text == FormatRemaining(diff)
  {
    if ReadCountdown(text) == Some(ReadRemaining(diff / 60000, (diff / 1000) % 60)) {
      ReadingDeterminesText(text, FormatRemaining(diff));
    }
  }

  /** What one refresh shows: "Expired" once the clock is past the deadline
      (a missing deadline counts as 0), otherwise the minutes and seconds left,
      which together are the whole seconds left. */
  lemma ReadTimeRemaining(queuePosition: Query<QueueEntry>, now: int)
    ensures IsExpired(queuePosition, now) ==> ReadCountdown(TimeRemaining(queuePosition, now)) == Some(ReadExpired)
    ensures !IsExpired(queuePosition, now) ==>
              var left := OfferExpiresAt(queuePosition) - now;
              var r := ReadCountdown(TimeRemaining(queuePosition, now));
              && r.Some? && r.value.ReadRemaining?
              && r.value.seconds < 60
              && r.value.minutes * 60 + r.value.seconds == left / 1000
  {
  }

  /** At the deadline itself the offer has not lapsed and the text is "0 second". */
  lemma AtDeadline(queuePosition: Query<QueueEntry>)
    ensures TimeRemaining(queuePosition, OfferExpiresAt(queuePosition)) == "0 second"
  {
  }

  /** The guard reads only the stored status, not the deadline: an offer whose
      deadline has passed still lets the handler go on while the countdown
      already shows "Expired". */
  lemma GuardIgnoresDeadline(d: int, now: int)
    requires d < now
    ensures var q := Value(QueueEntry(Offered, Some(d)));
      PurchaseAllowed(true, q) && TimeRemaining(q, now) == "Expired"
  {
  }
}
