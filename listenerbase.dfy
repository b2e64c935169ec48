/**
 * The shared behaviour of every IRC message listener: it unregisters itself from
 * the client when the local user quits or when the server reports an error.
 */
module ListenerBase {
  import opened Wrappers
  import opened IrcApi

  /** Why a listener could not be constructed (an `IllegalArgumentException`). */
  datatype ListenerError = NullIrc | NullConnectionState

  /** A quit is the local user's when its nick is present and equals the current nickname. */
  predicate IsLocalUser(nick: Option<string>, current: string) {
    nick.Some? && nick.value == current
  }

  /** A missing nick is never the local user, and only one nick is at a time. */
  lemma {:induction false} LocalUserUnique(a: Option<string>, b: Option<string>, current: string)
    ensures !IsLocalUser(None, current)
    ensures IsLocalUser(a, current) && IsLocalUser(b, current) ==> a == b
  {
  }

  /** The registrations left after a listener `self` processed a quit from `nick`. */
  function AfterQuit(registered: set<object>, self: object, nick: Option<string>, current: string): (r: set<object>)
    ensures r - {self} == registered - {self}
    ensures self in r <==> self in registered && !IsLocalUser(nick, current)
  {
    if IsLocalUser(nick, current) then registered - {self} else registered
  }

  /** The registrations left after a listener `self` processed an error. */
  function AfterError(registered: set<object>, self: object): (r: set<object>)
    ensures r - {self} == registered - {self}
    ensures self !in r
  {
    registered - {self}
  }

  /**
   * Unregistration happens at most once in effect: once a listener has left,
   * a later quit or error delivered to it changes nothing.
   */
  lemma {:induction false} UnregisterIsIdempotent(registered: set<object>, self: object, nick: Option<string>, current: string)
    ensures AfterError(AfterError(registered, self), self) == AfterError(registered, self)
    ensures AfterQuit(AfterError(registered, self), self, nick, current) == AfterError(registered, self)
    ensures IsLocalUser(nick, current) ==>
              AfterQuit(AfterQuit(registered, self, nick, current), self, nick, current)
              == AfterQuit(registered, self, nick, current)
  {
  }

  /** `AbstractIrcMessageListener`: holds the client and the connection state it listens on. */
  class AbstractIrcMessageListener {
    const irc: IrcClient
    const connectionState: IrcState

    constructor (irc: IrcClient, connectionState: IrcState)
      ensures this.irc == irc && this.connectionState == connectionState
    {
      this.irc := irc;
      this.connectionState := connectionState;
    }

    /** The constructor's argument checks: a null client, then a null state, is rejected. */
    static method Create(irc: IrcClient?, connectionState: IrcState?)
      returns (r: Outcome<AbstractIrcMessageListener, ListenerError>)
      ensures irc == null ==> r == Err(NullIrc)
      ensures irc != null && connectionState == null ==> r == Err(NullConnectionState)
      ensures irc != null && connectionState != null ==>
                r.Ok? && fresh(r.value) && r.value.irc == irc && r.value.connectionState == connectionState
    {
      if irc == null {
        return Err(NullIrc);
      }
      if connectionState == null {
        return Err(NullConnectionState);
      }
      var l := new AbstractIrcMessageListener(irc, connectionState);
      return Ok(l);
    }

    /** `localUser(nick)`: whether `nick` is the local user's current nickname. */
    predicate LocalUser(nick: Option<string>)
      reads connectionState
      ensures LocalUser(nick) <==> nick == Some(connectionState.nickname)
    {
      IsLocalUser(nick, connectionState.nickname)
    }

    /** `onUserQuit`: unregisters this listener exactly when the local user quit. */
    method OnUserQuit(nick: Option<string>)
      modifies irc
      ensures irc.listeners == AfterQuit(old(irc.listeners), this, nick, connectionState.nickname)
      ensures irc.connectRequests == old(irc.connectRequests) && irc.sent == old(irc.sent)
      ensures irc.disconnectRequests == old(irc.disconnectRequests)
    {
      if !LocalUser(nick) {
        return;
      }
      irc.DeleteListener(this);
    }

    /** `onError`: an error is treated as fatal, so this listener always unregisters. */
    method OnError()
      modifies irc
      ensures irc.listeners == AfterError(old(irc.listeners), this)
      ensures irc.connectRequests == old(irc.connectRequests) && irc.sent == old(irc.sent)
      ensures irc.disconnectRequests == old(irc.disconnectRequests)
    {
      irc.DeleteListener(this);
    }
  }
}
