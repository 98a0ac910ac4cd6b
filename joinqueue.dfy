/** The decision the join-queue widget makes about what to show a user on an
    event page, from the four queries it subscribes to and the current time. */
module JoinQueue {
  import opened Wrappers
  import opened WaitingList

  /** Ticket counts of an event; the client checks each for null. */
  datatype Availability = Availability(purchasedCount: Option<int>, totalTickets: Option<int>)

  /** The event fields the widget reads. `eventDate` 0 is falsy. */
  datatype Event = Event(ownerId: string, eventDate: int)

  /** The ticket the user holds for the event, if any; only its presence matters here. */
  datatype HeldTicket = HeldTicket(ticketId: nat)

  /** What the widget renders. */
  datatype View =
    | Spinner
    | Nothing
    | OwnerMessage
    | PastEventMessage
    | SoldOutMessage
    | BuyButton(disabled: bool)

  /** The user owns the event. A pending or absent event has no owner. */
  function IsEventOwner(userId: string, event: Query<Event>): (r: bool)
    ensures r ==> event.Value? && event.value.ownerId == userId
    ensures event.Value? && event.value.ownerId == userId ==> r
  {
    match event
    case Value(e) => userId == e.ownerId
    case _ => false
  }

  /** The event date is set and strictly before now. */
  function IsPastEvent(event: Query<Event>, now: int): (r: bool)
    ensures r <==> event.Value? && event.value.eventDate != 0 && event.value.eventDate < now
    ensures event.Value? && event.value.eventDate == now ==> !r
  {
    match event
    case Value(e) => if e.eventDate != 0 then e.eventDate < now else false
    case _ => false
  }

  /** Both counts are known and the purchases have reached the total. */
  function IsSoldOut(availability: Query<Availability>): (r: bool)
    ensures r <==> availability.Value? && availability.value.purchasedCount.Some? &&
                   availability.value.totalTickets.Some? &&
                   availability.value.purchasedCount.value >= availability.value.totalTickets.value
    ensures availability.Value? && (availability.value.purchasedCount.None? || availability.value.totalTickets.None?) ==> !r
  {
    match availability
    case Value(a) =>
      (match (a.purchasedCount, a.totalTickets)
       case (Some(p), Some(t)) => p >= t
       case _ => false)
    case _ => false
  }

  /** One of the queries has not answered yet, or the event does not exist. */
  function IsLoading(queuePosition: Query<QueueEntry>, availability: Query<Availability>, event: Query<Event>): (r: bool)
    ensures r <==> queuePosition.Pending? || availability.Pending? || !event.Value?
  {
    queuePosition == Pending || availability == Pending || !event.Truthy()
  }

  /** The user has a live queue entry: one that is not expired, and not an offer
      whose set deadline has been reached. */
  function IsQueueActive(queuePosition: Query<QueueEntry>, now: int): (r: bool)
    ensures !queuePosition.Value? ==> !r
    ensures queuePosition.Value? && queuePosition.value.status == Expired ==> !r
    ensures queuePosition.Value? && queuePosition.value.status == Other ==> r
    ensures queuePosition.Value? && queuePosition.value.status == Offered ==>
              (r <==> !TruthyTime(queuePosition.value.offerExpiresAt) || now < queuePosition.value.offerExpiresAt.value)
  {
    match queuePosition
    case Value(q) =>
      q.status != Expired &&
      !(q.status == Offered && TruthyTime(q.offerExpiresAt) && q.offerExpiresAt.value <= now)
    case _ => false
  }

  /** The widget: a spinner while loading; nothing when a ticket is held or a
      queue entry is live; otherwise the owner, past-event and sold-out
      messages in that priority, and the buy button last. */
  function Render(userId: string, queuePosition: Query<QueueEntry>, userTicket: Query<HeldTicket>,
                  availability: Query<Availability>, event: Query<Event>, now: int): (v: View)
    ensures v == Spinner <==> IsLoading(queuePosition, availability, event)
    ensures v == Nothing <==>
              (!IsLoading(queuePosition, availability, event) &&
               (userTicket.Value? || IsQueueActive(queuePosition, now)))
    ensures v == OwnerMessage <==>
              (!IsLoading(queuePosition, availability, event) && !userTicket.Value? &&
               !IsQueueActive(queuePosition, now) && IsEventOwner(userId, event))
    ensures v == PastEventMessage <==>
              (!IsLoading(queuePosition, availability, event) && !userTicket.Value? &&
               !IsQueueActive(queuePosition, now) && !IsEventOwner(userId, event) &&
               IsPastEvent(event, now))
    ensures v == SoldOutMessage <==>
              (!IsLoading(queuePosition, availability, event) && !userTicket.Value? &&
               !IsQueueActive(queuePosition, now) && !IsEventOwner(userId, event) &&
               !IsPastEvent(event, now) && IsSoldOut(availability))
    ensures v.BuyButton? <==>
              (!IsLoading(queuePosition, availability, event) && !userTicket.Value? &&
               !IsQueueActive(queuePosition, now) && !IsEventOwner(userId, event) &&
               !IsPastEvent(event, now) && !IsSoldOut(availability))
  {
    var isEventOwner := IsEventOwner(userId, event);
    var isPastEvent := IsPastEvent(event, now);
    if IsLoading(queuePosition, availability, event) then Spinner
    else if userTicket.Truthy() then Nothing
    else if IsQueueActive(queuePosition, now) then Nothing
    else if isEventOwner then OwnerMessage
    else if isPastEvent then PastEventMessage
    else if IsSoldOut(availability) then SoldOutMessage
    else BuyButton(disabled := isPastEvent || isEventOwner)
  }

  /** The buy button is never shown disabled: the branch that shows it is only
      reached when the user is neither the owner nor looking at a past event. */
  lemma BuyButtonAlwaysEnabled(userId: string, queuePosition: Query<QueueEntry>, userTicket: Query<HeldTicket>,
                               availability: Query<Availability>, event: Query<Event>, now: int)
    ensures Render(userId, queuePosition, userTicket, availability, event, now).BuyButton? ==>
              !Render(userId, queuePosition, userTicket, availability, event, now).disabled
  {
  }

  /** Once an event is past it stays past. */
  lemma PastEventStaysPast(event: Query<Event>, now: int, later: int)
    requires now <= later
    ensures IsPastEvent(event, now) ==> IsPastEvent(event, later)
  {
  }

  /** Once a queue entry is inactive it stays inactive as time passes. */
  lemma InactiveEntryStaysInactive(queuePosition: Query<QueueEntry>, now: int, later: int)
    requires now <= later
    ensures !IsQueueActive(queuePosition, now) ==> !IsQueueActive(queuePosition, later)
  {
  }

  /** A user whose queue entry is live sees nothing once loaded, whatever the
      ticket counts, the event date or its owner. */
  lemma LiveEntryHidesEverything(userId: string, entry: QueueEntry, userTicket: Query<HeldTicket>,
                                 availability: Query<Availability>, event: Query<Event>, now: int)
    requires IsQueueActive(Value(entry), now)
    ensures var v := Render(userId, Value(entry), userTicket, availability, event, now);
      v == Spinner || v == Nothing
  {
  }

  /** No one can be offered the buy button for an event they own, an event that
      is over, or one that is sold out. */
  lemma NoBuyButtonWhenBlocked(userId: string, queuePosition: Query<QueueEntry>, userTicket: Query<HeldTicket>,
                               availability: Query<Availability>, event: Query<Event>, now: int)
    requires IsEventOwner(userId, event) || IsPastEvent(event, now) || IsSoldOut(availability)
    ensures !Render(userId, queuePosition, userTicket, availability, event, now).BuyButton?
  {
  }

  /** An offer with deadline `d` keeps the widget hidden exactly until `d`:
      before it nothing is shown, from `d` on the widget falls through to the
      remaining branches. */
  lemma OfferWindow(userId: string, d: int, userTicket: Query<HeldTicket>,
                    availability: Query<Availability>, event: Query<Event>, now: int)
    requires d != 0 && availability != Pending && event.Value? && !userTicket.Value?
    ensures var v := Render(userId, Value(QueueEntry(Offered, Some(d))), userTicket, availability, event, now);
      v == Nothing <==> now < d
  {
  }
}
