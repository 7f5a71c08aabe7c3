/** LaravelSessionImpersonatorService: the impersonation state machine over the
    session slot 'original_user_id', the authenticated user and the session id. */
module SessionImpersonator {
  import opened Laravel
  import opened PhpStrings
  import ConfigHelper

  /** NO_ORIGINAL_USER: stored in the slot when impersonation starts logged out. */
  const NoOriginalUser: Id := Str("__no_original_user__")

  /** Longest identifier accepted, in bytes after trimming. */
  const MaxIdentifierLength := 255

  const EmptyIdentifierMessage := "User identifier cannot be empty."
  const LongIdentifierMessage := "User identifier cannot exceed 255 characters."

  function NotFoundMessage(id: Id): string {
    "User with identifier \"" + IdToString(id) + "\" not found or cannot be authenticated."
  }

  /** What Auth::loginUsingId() can log in: each identifier the guard's user
      provider finds, mapped to the auth identifier of the user it finds. */
  type Logins = map<Id, Id>

  /** No real user has the marker as its identifier. */
  predicate NoSentinelLogin(logins: Logins) {
    forall k :: k in logins ==> logins[k] != NoOriginalUser
  }

  /** The user `original` (if any) can still be logged in under its own identifier. */
  predicate Restorable(logins: Logins, original: Option<Id>) {
    original.Some? ==> original.value in logins && logins[original.value] == original.value
  }

  /** Session and auth state: the slot 'original_user_id' (None when the key is
      absent), Auth::id(), and the session id, which regenerate() bumps. */
  datatype SessionState = SessionState(slot: Option<Id>, auth: Option<Id>, sessionId: nat) {

    /** isImpersonating(): the slot is present, whatever it holds. */
    predicate IsImpersonating()
      ensures IsImpersonating() <==> GetOriginalUserId().Some? || slot == Some(NoOriginalUser)
    {
      slot.Some?
    }

    /** getOriginalUserId(): the stored identifier, or null when the slot is
        absent or holds the marker. */
    function GetOriginalUserId(): (r: Option<Id>)
      ensures r.Some? ==> slot == r && r.value != NoOriginalUser
      ensures r.None? <==> (slot.None? || slot == Some(NoOriginalUser))
    {
      if slot == Some(NoOriginalUser) then None else slot
    }
  }

  /** The state after an operation, and the message of the InvalidArgumentException it raised, if any. */
  datatype Transition = Transition(state: SessionState, error: Option<string>)

  /** What impersonation stores as the anchor: Auth::id() ?? NO_ORIGINAL_USER. */
  function AnchorFor(auth: Option<Id>): Id {
    if auth.Some? then auth.value else NoOriginalUser
  }

  /** The identifier handed to the guard: string identifiers are trimmed. */
  function Normalized(identifier: Id): Id {
    match identifier
    case Str(s) => Str(Trim(s))
    case Int(_) => identifier
  }

  /** The validation of a string identifier after trimming; ints always pass. */
  function ValidationError(identifier: Id): (r: Option<string>)
    ensures r.None? <==> identifier.Int? ||
                         (Trim(identifier.s) != [] && Utf8Length(Trim(identifier.s)) <= MaxIdentifierLength)
  {
    match identifier
    case Int(_) => None
    case Str(s) =>
      if Trim(s) == "" then Some(EmptyIdentifierMessage)
      else if Utf8Length(Trim(s)) > MaxIdentifierLength then Some(LongIdentifierMessage)
      else None
  }

  /** impersonate($identifier) when isEnabled() is `enabled`, with the anchor
      rolled back only when this call wrote it (see the as-written version below). */
  function Impersonated(s: SessionState, enabled: bool, logins: Logins, identifier: Id): (t: Transition)
    ensures !enabled ==> t == Transition(s, None)
    ensures t.error.Some? ==> t.state == s
    ensures enabled ==> (t.error.None? <==> ValidationError(identifier).None? && Normalized(identifier) in logins)
    ensures t.error.None? && enabled ==>
              && t.state.auth == Some(logins[Normalized(identifier)])
              && t.state.slot == (if s.slot.None? then Some(AnchorFor(s.auth)) else s.slot)
              && t.state.sessionId != s.sessionId
  {
    if !enabled then Transition(s, None)
    else if ValidationError(identifier).Some? then Transition(s, ValidationError(identifier))
    else
      var id := Normalized(identifier);
      var anchored := if s.slot.None? then s.(slot := Some(AnchorFor(s.auth))) else s;
      if id !in logins then
        Transition(if s.slot.None? then anchored.(slot := None) else anchored, Some(NotFoundMessage(id)))
      else
        Transition(anchored.(auth := Some(logins[id]), sessionId := s.sessionId + 1), None)
  }

  /** impersonate() exactly as written: a failed login forgets the slot even when
      an earlier call had written it. */
  function ImpersonatedAsWritten(s: SessionState, enabled: bool, logins: Logins, identifier: Id): (t: Transition)
    ensures var c := Impersonated(s, enabled, logins, identifier);
            t == if c.error.Some? && enabled && ValidationError(identifier).None?
                 then Transition(s.(slot := None), c.error) else c
  {
    if !enabled then Transition(s, None)
    else if ValidationError(identifier).Some? then Transition(s, ValidationError(identifier))
    else
      var id := Normalized(identifier);
      var anchored := if s.slot.None? then s.(slot := Some(AnchorFor(s.auth))) else s;
      if id !in logins then
        Transition(anchored.(slot := None), Some(NotFoundMessage(id)))
      else
        Transition(anchored.(auth := Some(logins[id]), sessionId := s.sessionId + 1), None)
  }

  /** stopImpersonating(): nothing without a slot; otherwise forget the slot, log
      out if it held the marker or log the stored user back in (a failed login
      leaves the current user), and regenerate the session id. */
  function Stopped(s: SessionState, logins: Logins): (t: SessionState)
    ensures s.slot.None? ==> t == s
    ensures s.slot.Some? ==> t.slot.None? && t.sessionId != s.sessionId
    ensures s.slot == Some(NoOriginalUser) ==> t.auth.None?
    ensures s.slot.Some? && s.slot.value != NoOriginalUser ==>
              t.auth == if s.slot.value in logins then Some(logins[s.slot.value]) else s.auth
  {
    match s.slot
    case None => s
    case Some(original) =>
      var auth := if original == NoOriginalUser then None
                  else if original in logins then Some(logins[original])
                  else s.auth;
      SessionState(None, auth, s.sessionId + 1)
  }

  /** The session service. Session and Auth are its fields; the configuration
      it was built with decides isEnabled(). */
  class Impersonator {
    const config: Config
    var slot: Option<Id>
    var auth: Option<Id>
    var sessionId: nat

    /** No user is authenticated under the marker's identifier. */
    ghost predicate Valid()
      reads this
    {
      auth != Some(NoOriginalUser)
    }

    function State(): SessionState
      reads this
    {
      SessionState(slot, auth, sessionId)
    }

    constructor (config: Config, slot: Option<Id>, auth: Option<Id>, sessionId: nat)
      requires auth != Some(NoOriginalUser)
      ensures Valid() && this.config == config
      ensures State() == SessionState(slot, auth, sessionId)
    {
      this.config := config;
      this.slot := slot;
      this.auth := auth;
      this.sessionId := sessionId;
    }

    /** impersonate($identifier); the result is the exception message, if one is thrown. */
    method Impersonate(identifier: Id, logins: Logins) returns (error: Option<string>)
      requires Valid() && NoSentinelLogin(logins)
      modifies this
      ensures Valid()
      ensures Transition(State(), error) ==
              Impersonated(old(State()), ConfigHelper.IsEnabled(config), logins, identifier)
    {
      if !ConfigHelper.IsEnabled(config) {
        return None;
      }
      var id := identifier;
      if id.Str? {
        id := Str(Trim(id.s));
        if id.s == "" {
          return Some(EmptyIdentifierMessage);
        }
        if Utf8Length(id.s) > MaxIdentifierLength {
          return Some(LongIdentifierMessage);
        }
      }
      var anchored := false;
      if slot.None? {
        slot := Some(if auth.Some? then auth.value else NoOriginalUser);
        anchored := true;
      }
      if id !in logins {
        if anchored {
          slot := None;
        }
        return Some(NotFoundMessage(id));
      }
      auth := Some(logins[id]);
      sessionId := sessionId + 1;
      return None;
    }

    /** stopImpersonating() */
    method StopImpersonating(logins: Logins)
      requires Valid() && NoSentinelLogin(logins)
      modifies this
      ensures Valid()
      ensures State() == Stopped(old(State()), logins)
    {
      if slot.None? {
        return;
      }
      var original := slot.value;
      slot := None;
      if original == NoOriginalUser {
        auth := None;
      } else if original in logins {
        auth := Some(logins[original]);
      }
      sessionId := sessionId + 1;
    }
  }

  // ---------------------------------------------------------------- properties

  /** Starting an impersonation anchors the user who was logged in: the original
      id is that user, or null (with the slot still present) when logged out. */
  lemma AnchorRecordsStartingUser(s: SessionState, logins: Logins, identifier: Id)
    requires s.slot.None? && s.auth != Some(NoOriginalUser)
    requires Impersonated(s, true, logins, identifier).error.None?
    ensures Impersonated(s, true, logins, identifier).state.IsImpersonating()
    ensures Impersonated(s, true, logins, identifier).state.GetOriginalUserId() == s.auth
  {
  }

  /** The starting user, or the logged-out state, can be recovered from `t`:
      either nothing is anchored and that user is still current, or the slot
      holds that user's anchor. */
  ghost predicate Recoverable(t: SessionState, original: Option<Id>) {
    (t.slot.None? && t.auth == original) || t.slot == Some(AnchorFor(original))
  }

  lemma ImpersonatedKeepsRecoverable(t: SessionState, original: Option<Id>, enabled: bool, logins: Logins, identifier: Id)
    requires Recoverable(t, original)
    ensures Recoverable(Impersonated(t, enabled, logins, identifier).state, original)
  {
  }

  /** Stopping from a recoverable state restores the starting user, or logs out
      when impersonation began logged out. */
  lemma StoppedRestores(t: SessionState, original: Option<Id>, logins: Logins)
    requires Recoverable(t, original)
    requires original != Some(NoOriginalUser) && Restorable(logins, original)
    ensures Stopped(t, logins).auth == original && !Stopped(t, logins).IsImpersonating()
    ensures t.IsImpersonating() ==> Stopped(t, logins).sessionId != t.sessionId
  {
  }

  /** A sequence of impersonate() calls, each with the isEnabled() it sees and its identifier. */
  datatype Call = Call(enabled: bool, identifier: Id)

  function ImpersonatedAll(s: SessionState, logins: Logins, calls: seq<Call>): SessionState {
    if calls == [] then s
    else
      var last := calls[|calls| - 1];
      Impersonated(ImpersonatedAll(s, logins, calls[..|calls| - 1]), last.enabled, logins, last.identifier).state
  }

  lemma {:induction false} ImpersonatedAllKeepsRecoverable(s: SessionState, logins: Logins, calls: seq<Call>)
    requires s.slot.None?
    ensures Recoverable(ImpersonatedAll(s, logins, calls), s.auth)
  {
    if calls != [] {
      ImpersonatedAllKeepsRecoverable(s, logins, calls[..|calls| - 1]);
      var last := calls[|calls| - 1];
      ImpersonatedKeepsRecoverable(ImpersonatedAll(s, logins, calls[..|calls| - 1]), s.auth,
                                   last.enabled, logins, last.identifier);
    }
  }

  /** Whatever impersonate() calls follow one another, succeeding, failing or
      nested, stopImpersonating() then brings back the user who was logged in
      before the first of them (or the logged-out state), ends the impersonation,
      and regenerates the session id if one was under way. */
  lemma StopUndoesImpersonations(s: SessionState, logins: Logins, calls: seq<Call>)
    requires !s.IsImpersonating() && s.auth != Some(NoOriginalUser)
    requires Restorable(logins, s.auth)
    ensures Stopped(ImpersonatedAll(s, logins, calls), logins).auth == s.auth
    ensures !Stopped(ImpersonatedAll(s, logins, calls), logins).IsImpersonating()
    ensures ImpersonatedAll(s, logins, calls).IsImpersonating() ==>
              Stopped(ImpersonatedAll(s, logins, calls), logins).sessionId != ImpersonatedAll(s, logins, calls).sessionId
  {
    ImpersonatedAllKeepsRecoverable(s, logins, calls);
    StoppedRestores(ImpersonatedAll(s, logins, calls), s.auth, logins);
  }

  /** A nested impersonate() never overwrites the anchor, whatever its outcome. */
  lemma NestedImpersonationKeepsAnchor(s: SessionState, enabled: bool, logins: Logins, identifier: Id)
    requires s.IsImpersonating()
    ensures Impersonated(s, enabled, logins, identifier).state.slot == s.slot
  {
  }

  /** User 1 impersonates user 2 and then user 3: the anchor stays 1, user 3
      is current, and stopping returns to user 1. */
  lemma NestedImpersonationExample()
    ensures var logins: Logins := map[Int(1) := Int(1), Int(2) := Int(2), Int(3) := Int(3)];
            var s1 := Impersonated(SessionState(None, Some(Int(1)), 0), true, logins, Int(2)).state;
            var s2 := Impersonated(s1, true, logins, Int(3)).state;
            && s1.slot == Some(Int(1)) && s2.slot == Some(Int(1)) && s2.auth == Some(Int(3))
            && Stopped(s2, logins).auth == Some(Int(1))
  {
  }

  /** With the source's rollback, a failed nested impersonate() loses the anchor:
      user 1 impersonates user 2, then asks for the unknown user 3; the slot is
      gone, user 2 stays logged in, and stopImpersonating() can no longer return
      to user 1. */
  lemma NestedFailureLosesAnchor()
    ensures var logins: Logins := map[Int(1) := Int(1), Int(2) := Int(2)];
            var s0 := SessionState(None, Some(Int(1)), 0);
            var s1 := ImpersonatedAsWritten(s0, true, logins, Int(2));
            var s2 := ImpersonatedAsWritten(s1.state, true, logins, Int(3));
            && s1.error.None? && s2.error.Some?
            && !s2.state.IsImpersonating()
            && Stopped(s2.state, logins).auth == Some(Int(2))
  {
    var logins: Logins := map[Int(1) := Int(1), Int(2) := Int(2)];
    assert Int(3) !in logins;
  }

  /** The identifiers impersonate() rejects before touching the session: a
      string that is empty or blank once trimmed, or longer than 255 bytes. */
  lemma BlankIdentifierRejected(s: SessionState, logins: Logins, padding: string)
    requires AllTrimChars(padding)
    ensures Impersonated(s, true, logins, Str(padding)) == Transition(s, Some(EmptyIdentifierMessage))
  {
    TrimOfPadded(padding, [], []);
    assert padding + [] + [] == padding;
  }

  lemma LongIdentifierRejected(s: SessionState, logins: Logins, id: string)
    requires Unpadded(id) && |id| > MaxIdentifierLength
    ensures Impersonated(s, true, logins, Str(id)) == Transition(s, Some(LongIdentifierMessage))
  {
    TrimUnpadded(id);
  }

  /** The limit counts bytes: non-blank ASCII identifiers of up to 255
      characters pass validation. */
  lemma AsciiIdentifierAccepted(id: string)
    requires id != [] && Unpadded(id) && |id| <= MaxIdentifierLength
    requires forall k :: 0 <= k < |id| ==> id[k] as int < 0x80
    ensures ValidationError(Str(id)).None?
  {
    TrimUnpadded(id);
    AsciiUtf8Length(id);
    assert Utf8Length(Trim(id)) <= MaxIdentifierLength;
  }

  /** Surrounding whitespace is trimmed before the guard looks the identifier up. */
  lemma PaddedIdentifierIsTrimmed(before: string, id: string, after: string)
    requires AllTrimChars(before) && AllTrimChars(after) && Unpadded(id)
    ensures Normalized(Str(before + id + after)) == Str(id)
  {
    TrimOfPadded(before, id, after);
  }
}
