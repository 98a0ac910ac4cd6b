/** The `getUserTicketForEvent` query over the tickets table. */
module Tickets {
  import opened Wrappers
  import DbIndex

  type TicketId = nat

  /** A row of the tickets table; only the fields the lookup reads are kept. */
  datatype Ticket = Ticket(id: TicketId, eventId: string, userId: string)

  /** The equality predicates of the `by_user_event` index. */
  predicate OfUserForEvent(t: Ticket, userId: string, eventId: string) {
    t.userId == userId && t.eventId == eventId
  }

  /** The index predicate as a value the scan can apply. */
  function ByUserEvent(userId: string, eventId: string): Ticket -> bool {
    (t: Ticket) => OfUserForEvent(t, userId, eventId)
  }

  /** The first ticket (in index order) that the user holds for the event, or
      None. Being a function of the table, the lookup cannot change it. */
  function GetUserTicketForEvent(tickets: seq<Ticket>, eventId: string, userId: string): (r: Option<Ticket>)
    ensures r.None? <==> forall i :: 0 <= i < |tickets| ==> !OfUserForEvent(tickets[i], userId, eventId)
    ensures r.Some? ==> r.value.userId == userId && r.value.eventId == eventId
    ensures r.Some? ==> exists i :: 0 <= i < |tickets| && tickets[i] == r.value &&
                          forall j :: 0 <= j < i ==> !OfUserForEvent(tickets[j], userId, eventId)
  {
    DbIndex.First(tickets, ByUserEvent(userId, eventId))
  }

  /** A ticket for the pair placed in front of the table is the one found,
      whatever the rest of the table holds. */
  lemma FirstMatchWins(tickets: seq<Ticket>, t: Ticket, eventId: string, userId: string)
    requires OfUserForEvent(t, userId, eventId)
    ensures GetUserTicketForEvent([t] + tickets, eventId, userId) == Some(t)
  {
  }

  /** Adding tickets of other users or other events leaves the answer unchanged. */
  lemma {:induction false} OtherTicketsIrrelevant(tickets: seq<Ticket>, others: seq<Ticket>, eventId: string, userId: string)
    requires forall k :: 0 <= k < |others| ==> !OfUserForEvent(others[k], userId, eventId)
    ensures GetUserTicketForEvent(others + tickets, eventId, userId) == GetUserTicketForEvent(tickets, eventId, userId)
  {
    if others != [] {
      assert (others + tickets)[1..] == others[1..] + tickets;
      DbIndex.FirstSkipsNonMatch(others + tickets, ByUserEvent(userId, eventId));
      OtherTicketsIrrelevant(tickets, others[1..], eventId, userId);
    } else {
      assert others + tickets == tickets;
    }
  }
}
