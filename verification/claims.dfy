/**
  The claim ledger: which account first validated each matricule
  (`claimed`, `load_claims`, `save_claims`, and the first-claim-wins
  arbitration inside `on_message`).
 */
module Claims {

  /** Matricule to the claiming account's id, written as a decimal string. */
  type Ledger = map<string, string>

  /** `after` keeps every claim of `before`, with the same owner. */
  predicate Extends(before: Ledger, after: Ledger) {
    forall k :: k in before ==> k in after && after[k] == before[k]
  }

  /** The claim file as `load_claims` finds it. */
  datatype ClaimFile = Missing | Corrupt | Stored(claims: Ledger)

  /** `load_claims`: the stored claims, or an empty ledger when the file is missing or cannot be parsed. */
  function LoadClaims(file: ClaimFile): (ledger: Ledger)
    ensures file.Stored? ==> ledger == file.claims
    ensures !file.Stored? ==> ledger == map[]
  {
    match file
    case Stored(claims) => claims
    case _ => map[]
  }

  /**
    How writing the file turns out. Opening for writing truncates the file, so
    a failure while dumping leaves it unparsable; a failure to open leaves it
    as it was.
   */
  datatype SaveResult = Written | OpenFailed | DumpFailed

  /** `save_claims`: the file after writing `ledger` over `prior`. The in-memory ledger is never rolled back. */
  function SaveClaims(ledger: Ledger, prior: ClaimFile, result: SaveResult): (file: ClaimFile)
    ensures result == Written ==> LoadClaims(file) == ledger
    ensures result == OpenFailed ==> file == prior
    ensures result == DumpFailed ==> !file.Stored? && LoadClaims(file) == map[]
  {
    match result
    case Written => Stored(ledger)
    case OpenFailed => prior
    case DumpFailed => Corrupt
  }

  datatype ClaimOutcome = NewlyClaimed | AlreadyOwnedBySelf | OwnedByOther

  datatype Claim = Claim(outcome: ClaimOutcome, ledger: Ledger)

  /**
    A claim of `id` by `owner`: the first claim wins, a repeat by the same
    owner is idempotent, and another owner is refused. Only a new claim
    changes the ledger.
   */
  function TryClaim(ledger: Ledger, id: string, owner: string): (c: Claim)
    ensures Extends(ledger, c.ledger)
    ensures c.ledger.Keys == ledger.Keys + {id}
    ensures c.ledger[id] == if id in ledger then ledger[id] else owner
    ensures c.outcome == NewlyClaimed <==> id !in ledger
    ensures c.outcome == AlreadyOwnedBySelf <==> id in ledger && ledger[id] == owner
    ensures c.outcome != NewlyClaimed ==> c.ledger == ledger
  {
    if id !in ledger then Claim(NewlyClaimed, ledger[id := owner])
    else if ledger[id] == owner then Claim(AlreadyOwnedBySelf, ledger)
    else Claim(OwnedByOther, ledger)
  }

  /** Claiming twice as the same owner: new, then already owned, and the ledger does not grow. */
  lemma ClaimTwiceSameOwner(ledger: Ledger, id: string, owner: string)
    requires id !in ledger
    ensures var first := TryClaim(ledger, id, owner);
      var second := TryClaim(first.ledger, id, owner);
      && first.outcome == NewlyClaimed
      && second.outcome == AlreadyOwnedBySelf
      && second.ledger == first.ledger
      && |second.ledger| == |ledger| + 1
  {
  }

  /** A second owner after the first: refused, and the first owner keeps the matricule. */
  lemma ClaimThenOtherOwner(ledger: Ledger, id: string, owner: string, other: string)
    requires id !in ledger && other != owner
    ensures var first := TryClaim(ledger, id, owner);
      var second := TryClaim(first.ledger, id, other);
      && first.outcome == NewlyClaimed
      && second.outcome == OwnedByOther
      && second.ledger[id] == owner
  {
  }
}
