/**
 * The sponsorship oracle: whether a GitHub user may read the documentation.
 * The GraphQL request to GitHub is not modelled; what it yields is an input.
 */
module Sponsorable {
  import opened Wrappers
  import opened JsString

  /** The fixed allow-list, with its entries exactly as they are written in the source. */
  const AllowedUsernamesAsWritten: seq<string> := [
    "thetutlage", "julien-r44", "mcsneaky", "targos", "romainlanz", "roonie007",
    "baekilda", "armgitaar", "ashokgelal", "anishghimire862", "janl", "a21y",
    "adamcikado", "zlpkhr", "eidellev", "joshmanders", "pieterletsdial", "cloleb",
    "shiny", "JASON-SHQ", "redeyesovo", "tpoisseau"
  ]

  /** The allow-list as it is evidently meant: every entry in lower case, as the lookup key is. */
  const AllowedUsernames: seq<string> := LowerAll(AllowedUsernamesAsWritten)

  /** The smallest monthly tier price, in dollars, that counts as sponsoring. */
  const MinimumMonthlyDollars := 19

  function LowerAll(names: seq<string>): (r: seq<string>)
    ensures |r| == |names|
    ensures forall i :: 0 <= i < |names| ==> r[i] == ToLower(names[i])
  {
    seq(|names|, i requires 0 <= i < |names| => ToLower(names[i]))
  }

  /**
   * What the GraphQL request for `user.sponsorshipForViewerAsSponsorable.tier`
   * brings back: the request throws; the response has no `user`; it has no
   * (active) sponsorship; the sponsorship has no tier; or the tier's price.
   */
  datatype QueryOutcome = Throws | NoUser | NoSponsorship | NoTier | Price(monthlyPriceInDollars: int)

  /** What is thrown inside the try block. */
  datatype Thrown = RequestFailed | UserUndefined

  /**
   * The try block: the request, the read of `response.user.sponsorshipForViewerAsSponsorable`
   * (which throws when `user` is missing), the missing-sponsorship-or-tier test and the
   * price comparison.
   */
  function TryBlock(o: QueryOutcome): (r: Result<bool, Thrown>)
    ensures r.Failure? <==> o.Throws? || o.NoUser?
    ensures r.Success? && r.value ==> o.Price?
  {
    match o
    case Throws => Failure(RequestFailed)
    case NoUser => Failure(UserUndefined)
    case NoSponsorship => Success(false)
    case NoTier => Success(false)
    case Price(dollars) => Success(dollars >= MinimumMonthlyDollars)
  }

  /**
   * isSponsoring against a given allow-list: the lower-cased username is looked up
   * first; otherwise the outcome of the query decides, and anything thrown lets the
   * user in (fail-open).
   */
  function Decide(allowList: seq<string>, username: string, o: QueryOutcome): (allowed: bool)
    ensures ToLower(username) in allowList ==> allowed
    ensures !allowed <==>
              && ToLower(username) !in allowList
              && (o.NoSponsorship? || o.NoTier? || (o.Price? && o.monthlyPriceInDollars < MinimumMonthlyDollars))
  {
    if ToLower(username) in allowList then true
    else match TryBlock(o)
      case Success(sponsoring) => sponsoring
      case Failure(_) => true
  }

  predicate InAllowList(username: string)
  {
    ToLower(username) in AllowedUsernames
  }

  /** isSponsoring as the source writes it, with the "JASON-SHQ" entry as written. */
  function IsSponsoringAsWritten(username: string, o: QueryOutcome): (allowed: bool)
    ensures !allowed <==>
              && ToLower(username) !in AllowedUsernamesAsWritten
              && (o.NoSponsorship? || o.NoTier? || (o.Price? && o.monthlyPriceInDollars < MinimumMonthlyDollars))
  {
    Decide(AllowedUsernamesAsWritten, username, o)
  }

  /** isSponsoring with the corrected allow-list; the rest of the model uses this one. */
  function IsSponsoring(username: string, o: QueryOutcome): (allowed: bool)
    ensures !allowed <==>
              && !InAllowList(username)
              && (o.NoSponsorship? || o.NoTier? || (o.Price? && o.monthlyPriceInDollars < MinimumMonthlyDollars))
  {
    Decide(AllowedUsernames, username, o)
  }

  /** An allow-listed user is let in whatever the query would say, so no query is needed. */
  lemma AllowListedNeedsNoQuery(username: string, o1: QueryOutcome, o2: QueryOutcome)
    requires InAllowList(username)
    ensures IsSponsoring(username, o1)
    ensures IsSponsoring(username, o1) == IsSponsoring(username, o2)
  {
  }

  /** No active sponsorship, or one without a tier, keeps a user who is not allow-listed out. */
  lemma MissingSponsorshipDenies(username: string, o: QueryOutcome)
    requires !InAllowList(username)
    requires o == NoSponsorship || o == NoTier
    ensures !IsSponsoring(username, o)
  {
  }

  /** The tier threshold: exactly a monthly price of at least 19 dollars. */
  lemma PriceThreshold(username: string, dollars: int)
    requires !InAllowList(username)
    ensures IsSponsoring(username, Price(dollars)) <==> dollars >= 19
    ensures IsSponsoring(username, Price(19)) && !IsSponsoring(username, Price(18))
  {
  }

  /** A higher price never turns a sponsor into a non-sponsor. */
  lemma PriceMonotone(username: string, p: int, q: int)
    requires p <= q
    requires IsSponsoring(username, Price(p))
    ensures IsSponsoring(username, Price(q))
  {
  }

  /** Fail-open: whatever is thrown in the try block, the user is let in. */
  lemma FailOpen(username: string, o: QueryOutcome)
    requires TryBlock(o).Failure?
    ensures IsSponsoring(username, o)
    ensures o == Throws || o == NoUser
  {
  }

  /** No lower-cased username equals the entry "JASON-SHQ", so that entry never matches. */
  lemma {:induction false} AsWrittenEntryUnreachable(username: string)
    ensures "JASON-SHQ" in AllowedUsernamesAsWritten
    ensures ToLower(username) != "JASON-SHQ"
  {
    assert AllowedUsernamesAsWritten[19] == "JASON-SHQ";
    UpperNeverLowered(username, "JASON-SHQ", 0);
  }

  /** The user "JASON-SHQ" with no sponsorship: the source denies, the corrected list admits. */
  lemma {:induction false} AsWrittenDeniesListedUser()
    ensures !IsSponsoringAsWritten("JASON-SHQ", NoSponsorship)
    ensures IsSponsoring("JASON-SHQ", NoSponsorship)
  {
    var lowered := ToLower("JASON-SHQ");
    assert lowered == "jason-shq";
    assert AllowedUsernames[19] == lowered;
    forall i | 0 <= i < |AllowedUsernamesAsWritten|
      ensures AllowedUsernamesAsWritten[i] != lowered
    {
    }
  }

  /** Every entry of the corrected list is matched by that name, in any letter case. */
  lemma {:induction false} CorrectedEntriesReachable(username: string, i: nat)
    requires i < |AllowedUsernamesAsWritten|
    requires ToLower(username) == ToLower(AllowedUsernamesAsWritten[i])
    ensures InAllowList(username)
  {
    assert AllowedUsernames[i] == ToLower(username);
  }

  /** The corrected lookup is a case-insensitive membership test on the list as written. */
  lemma {:induction false} CorrectedIsCaseInsensitive(username: string)
    ensures InAllowList(username) <==>
              exists i :: 0 <= i < |AllowedUsernamesAsWritten| && ToLower(AllowedUsernamesAsWritten[i]) == ToLower(username)
  {
    if InAllowList(username) {
      var i :| 0 <= i < |AllowedUsernames| && AllowedUsernames[i] == ToLower(username);
      assert ToLower(AllowedUsernamesAsWritten[i]) == ToLower(username);
    }
  }
}
