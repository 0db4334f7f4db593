/**
  The validation handler (`on_message`) and the bot's life cycle: the catalog
  and the ledger loaded at `on_ready`, then one message at a time arbitrated
  against them. Platform calls are parameters: whether the author holds the
  role before the message, and how the one role call the handler makes turns
  out.
 */
module Validation {
  import opened Strings
  import opened Matricules
  import opened Claims

  /** The channel whose messages are read as matricules. */
  const ValidationChannel: int := 1451336152568037456

  /**
    `''.join(c for c in content.strip().upper() if c.isalnum())`: the
    matricule a message asks for.
   */
  function Candidate(content: string): (r: string)
    ensures |r| <= |content|
    ensures forall i :: 0 <= i < |r| ==> IsAlnum(r[i]) && !IsLowerLetter(r[i])
  {
    var u := Upper(Strip(content));
    FilterKeepsProperty(IsAlnum, c => !IsLowerLetter(c), u);
    Filter(IsAlnum, u)
  }

  /** The account id as `str(message.author.id)` writes it into the ledger. */
  function OwnerKey(author: nat): string {
    IntToString(author)
  }

  datatype Message = Message(fromBot: bool, channel: int, author: nat, content: string)

  /** How a role call to the platform turns out. */
  datatype CallResult = Succeeded | Forbidden | Failed

  /**
    What the platform contributes to one message: whether the guild has the
    role, whether the author holds it, how a role call would turn out, and how
    saving the claim file would turn out.
   */
  datatype Platform = Platform(roleExists: bool, hasRole: bool, roleCall: CallResult, save: SaveResult)

  datatype RoleCall = NoCall | Grant | Revoke

  /** The handler's answer in the channel. */
  datatype Reply =
    | NoReply              // bot author, or another channel
    | AskForMatricule      // nothing alphanumeric in the message
    | RoleNotConfigured    // the guild has no such role
    | NewlyValidated       // new claim, role granted
    | ValidatedRoleAdded   // own claim again, role was missing and is granted
    | AlreadyValidated     // own claim again, role already held
    | UsedByAnother        // claimed by another account; its identity is not shown
    | InvalidRoleRemoved   // not in the catalog, role revoked
    | NotRecognized        // not in the catalog, no role to revoke
    | PermissionError      // the role call was refused
    | ValidationError      // the role call failed otherwise

  /** The bot's state between messages: catalog, in-memory ledger and the claim file. */
  datatype State = State(catalog: set<string>, ledger: Ledger, file: ClaimFile)

  /**
    The result of one message: the reply, the role call made, whether the
    author holds the role afterwards, the new state, and whether the message
    is passed on to command processing.
   */
  datatype Step = Step(reply: Reply, call: RoleCall, hasRole: bool, state: State, routed: bool)

  /**
    A role call and its outcome: on success the role follows the call and the
    case's own reply is shown; on failure the role is unchanged, a refusal
    shows the permission error and any other failure the generic one.
   */
  function CallRole(call: RoleCall, p: Platform, success: Reply): (r: (Reply, bool))
    requires call != NoCall
    ensures p.roleCall == Succeeded ==> r == (success, call == Grant)
    ensures p.roleCall != Succeeded ==> r.1 == p.hasRole
    ensures p.roleCall == Forbidden ==> r.0 == PermissionError
    ensures p.roleCall == Failed ==> r.0 == ValidationError
  {
    match p.roleCall
    case Succeeded => (success, call == Grant)
    case Forbidden => (PermissionError, p.hasRole)
    case Failed => (ValidationError, p.hasRole)
  }

  /** `on_message`. */
  function OnMessage(st: State, m: Message, p: Platform): (s: Step)
    ensures s.state.catalog == st.catalog
    ensures Extends(st.ledger, s.state.ledger)
    ensures s.state.ledger == st.ledger ||
      (var c := Candidate(m.content);
       c in st.catalog && c !in st.ledger && s.state.ledger == st.ledger[c := OwnerKey(m.author)])
    ensures s.state.ledger == st.ledger ==> s.state.file == st.file
    ensures s.state.ledger != st.ledger ==> s.state.file == SaveClaims(s.state.ledger, st.file, p.save)
    ensures s.call == NoCall ==> s.hasRole == p.hasRole
    ensures s.call != NoCall && p.roleCall == Succeeded ==> s.hasRole == (s.call == Grant)
  {
    if m.fromBot then Step(NoReply, NoCall, p.hasRole, st, false)
    else if m.channel != ValidationChannel then Step(NoReply, NoCall, p.hasRole, st, true)
    else
      var id := Candidate(m.content);
      if id == [] then Step(AskForMatricule, NoCall, p.hasRole, st, false)
      else if !p.roleExists then Step(RoleNotConfigured, NoCall, p.hasRole, st, false)
      else if id in st.catalog then
        var claim := TryClaim(st.ledger, id, OwnerKey(m.author));
        match claim.outcome
        case NewlyClaimed =>
          // The claim is recorded and saved before the role is granted.
          var st' := st.(ledger := claim.ledger, file := SaveClaims(claim.ledger, st.file, p.save));
          var r := CallRole(Grant, p, NewlyValidated);
          Step(r.0, Grant, r.1, st', true)
        case AlreadyOwnedBySelf =>
          if !p.hasRole then
            var r := CallRole(Grant, p, ValidatedRoleAdded);
            Step(r.0, Grant, r.1, st, true)
          else Step(AlreadyValidated, NoCall, true, st, true)
        case OwnedByOther =>
          Step(UsedByAnother, NoCall, p.hasRole, st, false)
      else if p.hasRole then
        var r := CallRole(Revoke, p, InvalidRoleRemoved);
        Step(r.0, Revoke, r.1, st, true)
      else Step(NotRecognized, NoCall, false, st, true)
  }

  /** A message the handler reads: a human author in the validation channel. */
  predicate Handled(m: Message) {
    !m.fromBot && m.channel == ValidationChannel
  }

  /** Messages from bots are ignored; other channels go straight to command processing. Neither changes anything. */
  lemma OtherMessagesChangeNothing(st: State, m: Message, p: Platform)
    requires !Handled(m)
    ensures var s := OnMessage(st, m, p);
      s.state == st && s.call == NoCall && s.reply == NoReply && s.routed == !m.fromBot
  {
  }

  /** A message with nothing alphanumeric asks for a valid matricule and changes nothing. */
  lemma EmptyCandidateAsksAgain(st: State, m: Message, p: Platform)
    requires Handled(m)
    requires forall i :: 0 <= i < |m.content| ==> !IsAlnum(m.content[i])
    ensures var s := OnMessage(st, m, p);
      s.reply == AskForMatricule && s.call == NoCall && s.state == st && s.hasRole == p.hasRole
  {
    CandidateEmptyIff(m.content);
  }

  /**
    The role call and the reply for each case of a handled message whose
    candidate is non-empty: a new claim or an own claim without the role
    grants; an own claim with the role, and another account's claim, make no
    call; a matricule outside the catalog revokes exactly when the author
    holds the role. When the call succeeds, or none is made, the reply names
    the case; when it fails, the role is unchanged and the reply names the
    failure.
   */
  lemma RoleEffectsByCase(st: State, m: Message, p: Platform)
    requires Handled(m) && p.roleExists
    requires Candidate(m.content) != []
    ensures var id, s := Candidate(m.content), OnMessage(st, m, p);
      && (id in st.catalog && id !in st.ledger ==>
            s.call == Grant && (p.roleCall == Succeeded ==> s.reply == NewlyValidated))
      && (id in st.catalog && id in st.ledger && st.ledger[id] == OwnerKey(m.author) ==>
            && s.call == (if p.hasRole then NoCall else Grant)
            && (p.hasRole || p.roleCall == Succeeded ==>
                  s.reply == (if p.hasRole then AlreadyValidated else ValidatedRoleAdded)))
      && (id in st.catalog && id in st.ledger && st.ledger[id] != OwnerKey(m.author) ==>
            s.call == NoCall && s.reply == UsedByAnother && !s.routed)
      && (id !in st.catalog ==>
            && s.call == (if p.hasRole then Revoke else NoCall)
            && (!p.hasRole || p.roleCall == Succeeded ==>
                  s.reply == (if p.hasRole then InvalidRoleRemoved else NotRecognized)))
      && (s.call != NoCall && p.roleCall != Succeeded ==>
            && s.reply == (if p.roleCall == Forbidden then PermissionError else ValidationError)
            && s.hasRole == p.hasRole)
  {
  }

  /** Without the role in the guild the handler reports it, makes no call, changes nothing and stops. */
  lemma MissingRoleStops(st: State, m: Message, p: Platform)
    requires Handled(m) && !p.roleExists && Candidate(m.content) != []
    ensures var s := OnMessage(st, m, p);
      && s.reply == RoleNotConfigured && s.call == NoCall && s.hasRole == p.hasRole
      && s.state == st && !s.routed
  {
  }

  /**
    After the handler runs, the message goes on to command processing unless
    it came from a bot, held nothing alphanumeric, found no role, or tried a
    matricule claimed by another account.
   */
  lemma RoutedUnlessStoppedEarly(st: State, m: Message, p: Platform)
    ensures var id, s := Candidate(m.content), OnMessage(st, m, p);
      !s.routed <==>
        || m.fromBot
        || (m.channel == ValidationChannel &&
            (id == [] || !p.roleExists ||
             (id in st.catalog && id in st.ledger && st.ledger[id] != OwnerKey(m.author))))
  {
  }

  /** A new claim whose grant and save both succeed: the role is held and the file records the claim. */
  lemma NewClaimGrantsAndPersists(st: State, m: Message, p: Platform)
    requires Handled(m) && p.roleExists && Candidate(m.content) != []
    requires Candidate(m.content) in st.catalog && Candidate(m.content) !in st.ledger
    requires p.roleCall == Succeeded && p.save == Written
    ensures var s := OnMessage(st, m, p);
      && s.reply == NewlyValidated && s.call == Grant && s.hasRole
      && s.state.ledger[Candidate(m.content)] == OwnerKey(m.author)
      && s.state.file == Stored(s.state.ledger)
      && LoadClaims(s.state.file) == s.state.ledger
  {
  }

  /** Only a new claim changes the ledger; an own claim, another's claim and an unknown matricule leave it alone. */
  lemma LedgerChangesOnlyOnNewClaim(st: State, m: Message, p: Platform)
    ensures var id, s := Candidate(m.content), OnMessage(st, m, p);
      s.state.ledger != st.ledger <==>
        Handled(m) && p.roleExists && id != [] && id in st.catalog && id !in st.ledger
  {
    var id := Candidate(m.content);
    if Handled(m) && p.roleExists && id != [] && id in st.catalog && id !in st.ledger {
      assert id in OnMessage(st, m, p).state.ledger;
    }
  }

  /**
    On a new claim the ledger is updated and saved before the role is granted,
    so a refused or failed grant leaves the claim in place.
   */
  lemma NewClaimSurvivesFailedGrant(st: State, m: Message, p: Platform)
    requires Handled(m) && p.roleExists && Candidate(m.content) != []
    requires Candidate(m.content) in st.catalog && Candidate(m.content) !in st.ledger
    requires p.roleCall != Succeeded
    ensures var s := OnMessage(st, m, p);
      && s.state.ledger == st.ledger[Candidate(m.content) := OwnerKey(m.author)]
      && s.state.file == SaveClaims(s.state.ledger, st.file, p.save)
      && s.hasRole == p.hasRole
      && s.reply == (if p.roleCall == Forbidden then PermissionError else ValidationError)
  {
  }

  /** Stripping does not matter: whitespace is not alphanumeric. */
  lemma CandidateIgnoresStrip(s: string)
    ensures Candidate(s) == Filter(IsAlnum, Upper(s))
  {
    StripSplits(s);
    var a, m, b := s[..StripStart(s)], Strip(s), s[StripEnd(s)..];
    assert s == a + m + b;
    SpaceIsNotAlnum(a);
    SpaceIsNotAlnum(b);
    FilterUpperPadded(a, m, b);
  }

  lemma SpaceIsNotAlnum(s: string)
    requires AllSpace(s)
    ensures forall i :: 0 <= i < |s| ==> !IsAlnum(s[i])
  {
  }

  /** Characters that are not alphanumeric around `m` do not reach the candidate. */
  lemma FilterUpperPadded(a: string, m: string, b: string)
    requires forall i :: 0 <= i < |a| ==> !IsAlnum(a[i])
    requires forall i :: 0 <= i < |b| ==> !IsAlnum(b[i])
    ensures Filter(IsAlnum, Upper(a + m + b)) == Filter(IsAlnum, Upper(m))
  {
    var ua, um, ub := Upper(a), Upper(m), Upper(b);
    UpperAppend(a + m, b);
    UpperAppend(a, m);
    assert Upper(a + m + b) == ua + um + ub;
    NoAlnumFiltersAway(ua);
    NoAlnumFiltersAway(ub);
    FilterAppend(IsAlnum, ua + um, ub);
    FilterAppend(IsAlnum, ua, um);
  }

  lemma NoAlnumFiltersAway(s: string)
    requires forall i :: 0 <= i < |s| ==> !IsAlnum(s[i])
    ensures Filter(IsAlnum, s) == []
  {
    FilterEmptyIff(IsAlnum, s);
  }

  /** The candidate of a message is the candidates of its parts, concatenated. */
  lemma CandidateAppend(a: string, b: string)
    ensures Candidate(a + b) == Candidate(a) + Candidate(b)
  {
    CandidateIgnoresStrip(a + b);
    CandidateIgnoresStrip(a);
    CandidateIgnoresStrip(b);
    UpperAppend(a, b);
    FilterAppend(IsAlnum, Upper(a), Upper(b));
  }

  /** A message with no alphanumeric character has an empty candidate, and only such a message. */
  lemma CandidateEmptyIff(s: string)
    ensures Candidate(s) == [] <==> forall i :: 0 <= i < |s| ==> !IsAlnum(s[i])
  {
    CandidateIgnoresStrip(s);
    FilterEmptyIff(IsAlnum, Upper(s));
  }

  /** Upper-case letters and digits pass through unchanged. */
  lemma CandidateKeepsUpperAlnum(s: string)
    requires forall i :: 0 <= i < |s| ==> IsAlnum(s[i]) && !IsLowerLetter(s[i])
    ensures Candidate(s) == s
  {
    CandidateIgnoresStrip(s);
    assert Upper(s) == s;
    FilterKeepsAll(IsAlnum, s);
  }

  /** Typing a matricule of digits, with any surrounding spaces or separators, asks for exactly that matricule. */
  lemma CandidateOfTypedMatricule(before: string, id: string, after: string)
    requires AllDigits(id)
    requires forall i :: 0 <= i < |before| ==> !IsAlnum(before[i])
    requires forall i :: 0 <= i < |after| ==> !IsAlnum(after[i])
    ensures Candidate(before + id + after) == id
  {
    CandidateAppend(before + id, after);
    CandidateAppend(before, id);
    CandidateEmptyIff(before);
    CandidateEmptyIff(after);
    CandidateKeepsUpperAlnum(id);
  }

  lemma UpperExample(s: string)
    requires s == " 123-abc "
    ensures Upper(s) == " 123-ABC "
  {
    var u := Upper(s);
    assert u[5] == ToUpper('a') == 'A';
    assert u[6] == ToUpper('b') == 'B';
    assert u[7] == ToUpper('c') == 'C';
  }

  lemma FilterExample()
    ensures Filter(IsAlnum, " 123-ABC ") == "123ABC"
  {
  }

  /** `" 123-abc "` asks for `"123ABC"`: letters are kept. */
  lemma CandidateExample(s: string)
    requires s == " 123-abc "
    ensures Candidate(s) == "123ABC"
  {
    CandidateIgnoresStrip(s);
    UpperExample(s);
    FilterExample();
  }

  /** A matricule from a negative number keeps its minus sign, which no message can produce. */
  lemma NegativeMatriculeUnclaimable(n: int, content: string)
    requires n < 0
    ensures Candidate(content) != NormalizeMatricule(Num(n))
  {
    NegativeNumberKeepsSign(n);
  }

  /** What happens to the bot, in order. */
  datatype Event = Ready(book: Workbook) | Incoming(message: Message, platform: Platform)

  /**
    `on_ready` rebuilds the catalog and reloads the ledger from the claim file
    without writing it; a message runs the handler, which keeps the catalog
    and only adds claims. A reload of a mirrored file loses nothing; a reload
    of a corrupt one loses everything.
   */
  function Apply(st: State, e: Event): (r: State)
    ensures e.Incoming? ==> r.catalog == st.catalog && Extends(st.ledger, r.ledger)
    ensures e.Ready? ==> r.file == st.file && r.catalog == LoadMatricules(e.book) && r.ledger == LoadClaims(st.file)
    ensures e.Ready? && Mirrored(st) ==> r.ledger == st.ledger
    ensures e.Ready? && st.file.Corrupt? ==> r.ledger == map[]
  {
    match e
    case Ready(book) => State(LoadMatricules(book), LoadClaims(st.file), st.file)
    case Incoming(m, p) => OnMessage(st, m, p).state
  }

  /**
    The events in order. The catalog at the end is the one built at the last
    `on_ready` of the run, or the starting one when the run has none.
   */
  function Run(st: State, events: seq<Event>): (r: State)
    ensures r.catalog == st.catalog ||
      exists i :: 0 <= i < |events| && events[i].Ready? && r.catalog == LoadMatricules(events[i].book)
    ensures forall i :: LastReady(events, i) ==> r.catalog == LoadMatricules(events[i].book)
    decreases |events|
  {
    if events == [] then st else Run(Apply(st, events[0]), events[1..])
  }

  /** Event `i` is an `on_ready` and only messages follow it. */
  predicate LastReady(events: seq<Event>, i: int) {
    0 <= i < |events| && events[i].Ready? && forall j :: i < j < |events| ==> events[j].Incoming?
  }

  predicate MessagesOnly(events: seq<Event>) {
    forall i :: 0 <= i < |events| ==> events[i].Incoming?
  }

  predicate SavesSucceed(events: seq<Event>) {
    forall i :: 0 <= i < |events| ==> events[i].Incoming? ==> events[i].platform.save == Written
  }

  /** The claim file holds exactly the in-memory ledger. */
  predicate Mirrored(st: State) {
    st.file == Stored(st.ledger)
  }

  /**
    Between two `on_ready` events the ledger only grows: no owner is replaced
    or removed, the catalog stays, and every matricule claimed meanwhile is in
    the catalog.
   */
  lemma {:induction false} LedgerOnlyGrows(st: State, events: seq<Event>)
    requires MessagesOnly(events)
    ensures var final := Run(st, events);
      && final.catalog == st.catalog
      && Extends(st.ledger, final.ledger)
      && forall k :: k in final.ledger && k !in st.ledger ==> k in st.catalog
    decreases |events|
  {
    if events != [] {
      var next := Apply(st, events[0]);
      assert MessagesOnly(events[1..]) by {
        forall i | 0 <= i < |events[1..]| ensures events[1..][i].Incoming? {
          assert events[1..][i] == events[i + 1];
        }
      }
      LedgerOnlyGrows(next, events[1..]);
    }
  }

  /**
    Write-through: while every save succeeds the claim file mirrors the
    ledger, so an `on_ready` reload loses no claim and the ledger only grows,
    restarts included.
   */
  lemma {:induction false} WriteThrough(st: State, events: seq<Event>)
    requires Mirrored(st) && SavesSucceed(events)
    ensures Mirrored(Run(st, events))
    ensures Extends(st.ledger, Run(st, events).ledger)
    decreases |events|
  {
    if events != [] {
      var next := Apply(st, events[0]);
      assert Mirrored(next) && Extends(st.ledger, next.ledger);
      assert SavesSucceed(events[1..]) by {
        forall i | 0 <= i < |events[1..]| && events[1..][i].Incoming?
          ensures events[1..][i].platform.save == Written
        {
          assert events[1..][i] == events[i + 1];
        }
      }
      WriteThrough(next, events[1..]);
    }
  }

  /** A save that fails after truncating the file loses every claim at the next `on_ready`. */
  lemma FailedDumpLosesClaimsOnRestart(st: State, m: Message, p: Platform, book: Workbook)
    requires Handled(m) && p.roleExists && p.save == DumpFailed && Candidate(m.content) != []
    requires Candidate(m.content) in st.catalog && Candidate(m.content) !in st.ledger
    ensures Run(st, [Incoming(m, p), Ready(book)]).ledger == map[]
  {
    var events := [Incoming(m, p), Ready(book)];
    var next := Apply(st, events[0]);
    assert next.file == Corrupt;
    assert events[1..] == [Ready(book)];
    var last := Apply(next, Ready(book));
    assert last.ledger == map[];
    assert Run(next, [Ready(book)]) == Run(last, []) by {
      assert [Ready(book)][1..] == [];
    }
  }

  /**
    A save whose open fails leaves the old file, so the next `on_ready` reloads
    the claims from before the message and the new claim is gone.
   */
  lemma FailedOpenLosesNewClaimOnRestart(st: State, m: Message, p: Platform, book: Workbook)
    requires Mirrored(st)
    requires Handled(m) && p.roleExists && p.save == OpenFailed && Candidate(m.content) != []
    requires Candidate(m.content) in st.catalog && Candidate(m.content) !in st.ledger
    ensures var final := Run(st, [Incoming(m, p), Ready(book)]);
      final.ledger == st.ledger && Candidate(m.content) !in final.ledger
  {
    var events := [Incoming(m, p), Ready(book)];
    var next := Apply(st, events[0]);
    assert next.file == st.file;
    assert events[1..] == [Ready(book)];
    var last := Apply(next, Ready(book));
    assert Run(next, [Ready(book)]) == Run(last, []) by {
      assert [Ready(book)][1..] == [];
    }
  }
}
