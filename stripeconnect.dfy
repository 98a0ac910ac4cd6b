/** `getStripeConnectAccountStatus`: the summary of a connected payment
    account that the seller pages display. The account record is what the
    payment provider's retrieve call returns; the call itself is a parameter. */
module StripeConnect {
  import opened Wrappers

  /** The requirement lists of a retrieved account; the provider may omit each. */
  datatype Requirements = Requirements(
    currentlyDue: Option<seq<string>>,
    eventuallyDue: Option<seq<string>>,
    pastDue: Option<seq<string>>)

  /** The fields of a retrieved account that the derivation reads. */
  datatype Account = Account(
    detailsSubmitted: bool,
    chargesEnabled: bool,
    payoutsEnabled: bool,
    requirements: Option<Requirements>)

  /** The requirement lists as reported, each defaulting to empty. */
  datatype RequirementLists = RequirementLists(currentlyDue: seq<string>, eventuallyDue: seq<string>, pastDue: seq<string>)

  datatype AccountStatus = AccountStatus(
    isActive: bool,
    requiresInformation: bool,
    requirements: RequirementLists,
    chargesEnabled: bool,
    payoutsEnabled: bool)

  /** The two errors the action throws: a missing account id (before any
      retrieval), and the single generic error every retrieval failure becomes. */
  datatype StatusError = AccountIdRequired | RetrievalFailed

  /** A requirement list as the provider reported it: `req?.list` is absent when
      either the requirements object or the list is. */
  function Reported(req: Option<Requirements>, pick: Requirements -> Option<seq<string>>): Option<seq<string>> {
    match req
    case None => None
    case Some(q) => pick(q)
  }

  /** `!list?.length`: true when the list is absent or empty. */
  predicate NoneDue(list: Option<seq<string>>) {
    list.None? || list.value == []
  }

  /** The object the action builds from a retrieved account. */
  function DeriveStatus(account: Account): (s: AccountStatus)
    ensures s.isActive <==> account.detailsSubmitted && s.requirements.currentlyDue == []
    ensures s.isActive ==> s.requirements.currentlyDue == []
    ensures s.requiresInformation <==>
              (s.requirements.currentlyDue != [] || s.requirements.eventuallyDue != [] || s.requirements.pastDue != [])
    ensures s.chargesEnabled == account.chargesEnabled && s.payoutsEnabled == account.payoutsEnabled
  {
    var req := account.requirements;
    var current := Reported(req, (q: Requirements) => q.currentlyDue);
    var eventual := Reported(req, (q: Requirements) => q.eventuallyDue);
    var past := Reported(req, (q: Requirements) => q.pastDue);
    AccountStatus(
      isActive := account.detailsSubmitted && NoneDue(current),
      requiresInformation := !NoneDue(current) || !NoneDue(eventual) || !NoneDue(past),
      requirements := RequirementLists(current.GetOr([]), eventual.GetOr([]), past.GetOr([])),
      chargesEnabled := account.chargesEnabled,
      payoutsEnabled := account.payoutsEnabled)
  }

  /** The requirement lists are copied from the account, each absent one (or an
      absent requirements object) becoming the empty list. */
  lemma RequirementsCopied(account: Account)
    ensures var s := DeriveStatus(account);
      && (account.requirements.None? ==> s.requirements == RequirementLists([], [], []))
      && (account.requirements.Some? ==>
            var q := account.requirements.value;
            s.requirements == RequirementLists(q.currentlyDue.GetOr([]), q.eventuallyDue.GetOr([]), q.pastDue.GetOr([])))
  {
  }

  /** The two flags can hold together: an account is active and still
      requires information exactly when its details are submitted, nothing is
      currently due, and something is eventually or past due. */
  lemma ActiveWhileRequiringInformation(account: Account)
    ensures var s := DeriveStatus(account);
      var q := account.requirements;
      s.isActive && s.requiresInformation <==>
        && account.detailsSubmitted
        && q.Some? && NoneDue(q.value.currentlyDue)
        && (!NoneDue(q.value.eventuallyDue) || !NoneDue(q.value.pastDue))
  {
  }

  /** The action. An empty id is rejected whatever the retrieval would return;
      otherwise the account is retrieved by that id and summarised, and a failed
      retrieval becomes the generic error. */
  function GetStripeConnectAccountStatus(stripeAccountId: string, retrieve: string -> Option<Account>): (r: Result<AccountStatus, StatusError>)
    ensures stripeAccountId == [] <==> r == Failure(AccountIdRequired)
    ensures stripeAccountId != [] && retrieve(stripeAccountId).None? <==> r == Failure(RetrievalFailed)
    ensures r.Success? ==> retrieve(stripeAccountId).Some? && r.value == DeriveStatus(retrieve(stripeAccountId).value)
  {
    if stripeAccountId == [] then Failure(AccountIdRequired)
    else
      match retrieve(stripeAccountId)
      case None => Failure(RetrievalFailed)
      case Some(account) => Success(DeriveStatus(account))
  }
}
