/**
 * `IrcConnection`: one server connection. Construction checks its arguments,
 * installs the server listener, connects synchronously through a one-shot
 * result container and then builds the five sub-managers in a fixed order.
 */
module Connection {
  import opened Wrappers
  import opened IrcApi
  import Sync

  /** Characters with a special meaning in IRC: NUL, line feed, carriage return, space and comma. */
  const SPECIAL_CHARACTERS: set<char> := {'\0', '\n', '\r', ' ', ','}

  /** Why constructing a connection failed. */
  datatype ConnectError =
    | NullContext                         // IllegalArgumentException("context cannot be null")
    | NullConfig                          // IllegalArgumentException("client config cannot be null")
    | NullIrc                             // IllegalArgumentException("irc instance cannot be null")
    | Wrapped(cause: LibraryException)    // IOException wrapping the reported exception
    | NullState                           // IOException: connection state is null

  /** A handler that dereferenced the connection state while it was still null (a `NullPointerException`). */
  datatype HandlerError = NullStateDereference

  /** What the library delivers to the connect callback: `onSuccess(state)` or `onFailure(e)`; either may carry null. */
  datatype ConnectReply = OnSuccess(state: Option<IrcState>) | OnFailure(e: Option<LibraryException>)

  /** The `setDone` call the callback makes for a reply. */
  function CompletionOf(reply: ConnectReply): Sync.Completion<IrcState, LibraryException> {
    match reply
    case OnSuccess(s) => Sync.WithValue(s)
    case OnFailure(e) => Sync.WithException(e)
  }

  /** The decision taken once the container is done: a stored exception, then a missing state, is an error. */
  function AfterWait(c: Sync.Contents<IrcState, LibraryException>): Outcome<IrcState, ConnectError> {
    if c.exception.Some? then Err(Wrapped(c.exception.value))
    else if c.value.None? then Err(NullState)
    else Ok(c.value.value)
  }

  /** The outcome of a synchronous connect: the reply stored in a fresh container, then the decision. */
  function ConnectOutcome(reply: ConnectReply): Outcome<IrcState, ConnectError> {
    AfterWait(Sync.Complete(Sync.Contents(false, None, None), CompletionOf(reply)))
  }

  /**
   * A reported exception becomes a wrapped error, a missing state (including an
   * `onFailure(null)`) the null-state error, and a delivered state is returned.
   */
  lemma {:induction false} ConnectOutcomeCases(reply: ConnectReply)
    ensures reply.OnFailure? && reply.e.Some? ==> ConnectOutcome(reply) == Err(Wrapped(reply.e.value))
    ensures reply.OnFailure? && reply.e.None? ==> ConnectOutcome(reply) == Err(NullState)
    ensures reply.OnSuccess? && reply.state.None? ==> ConnectOutcome(reply) == Err(NullState)
    ensures reply.OnSuccess? && reply.state.Some? ==> ConnectOutcome(reply) == Ok(reply.state.value)
  {
  }

  /** The five sub-managers, in the order the connection builds them. */
  datatype ManagerKind = Identity | Message | Channel | Presence | ChannelLister

  const BUILD_ORDER: seq<ManagerKind> := [Identity, Message, Channel, Presence, ChannelLister]

  /** A sub-manager, reduced to a non-null token: which one it is and the state it was given. */
  class SubManager {
    const kind: ManagerKind
    const state: IrcState

    constructor (kind: ManagerKind, state: IrcState)
      ensures this.kind == kind && this.state == state
    {
      this.kind := kind;
      this.state := state;
    }
  }

  /** `IrcStack.PersistentContext`: context that outlives a connection (opaque here). */
  class PersistentContext {
    constructor () {}
  }

  /** `ClientConfig`: client behaviour options (opaque here). */
  class ClientConfig {
    constructor () {}
  }

  /** `IrcConnectionListener`: the owner's callback, recording each `connectionInterrupted`. */
  class ConnectionListener {
    var interrupted: seq<IrcConnection>

    constructor ()
      ensures interrupted == []
    {
      interrupted := [];
    }

    method ConnectionInterrupted(c: IrcConnection)
      modifies this
      ensures interrupted == old(interrupted) + [c]
    {
      interrupted := interrupted + [c];
    }
  }

  class IrcConnection {
    const context: PersistentContext
    const config: ClientConfig
    const irc: IrcClient
    const connectionListener: ConnectionListener?
    var connectionState: IrcState?
    var identity: SubManager?
    var message: SubManager?
    var channel: SubManager?
    var presence: SubManager?
    var channelLister: SubManager?
    /** The kinds of the sub-managers built so far, in construction order. */
    ghost var built: seq<ManagerKind>

    /** A fully constructed connection: the state is set and every sub-manager exists for it. */
    ghost predicate Valid()
      reads this
    {
      && connectionState != null
      && identity != null && identity.kind == Identity && identity.state == connectionState
      && message != null && message.kind == Message && message.state == connectionState
      && channel != null && channel.kind == Channel && channel.state == connectionState
      && presence != null && presence.kind == Presence && presence.state == connectionState
      && channelLister != null && channelLister.kind == ChannelLister && channelLister.state == connectionState
      && built == BUILD_ORDER
    }

    /** The object as it is before `connectSynchronized` returns: only the arguments are stored. */
    constructor Begin(context: PersistentContext, config: ClientConfig, irc: IrcClient,
                      connectionListener: ConnectionListener?)
      ensures this.context == context && this.config == config && this.irc == irc
      ensures this.connectionListener == connectionListener
      ensures connectionState == null && built == []
      ensures identity == null && message == null && channel == null && presence == null && channelLister == null
    {
      this.context := context;
      this.config := config;
      this.irc := irc;
      this.connectionListener := connectionListener;
      connectionState := null;
      identity, message, channel, presence, channelLister := null, null, null, null, null;
      built := [];
    }

    /**
     * The constructor. `reply` is what the library delivers to the connect
     * callback. The null checks come first, before any listener is added or
     * connect is issued; a failed connect leaves the server listener
     * registered and builds no sub-manager. `attempt` is the object under
     * construction, `listener` the installed server listener.
     */
    static method Open(context: PersistentContext?, config: ClientConfig?, irc: IrcClient?,
                       params: ServerParameters, connectionListener: ConnectionListener?,
                       reply: ConnectReply)
      returns (r: Outcome<IrcConnection, ConnectError>, ghost attempt: IrcConnection?,
               ghost listener: ServerListener?)
      modifies irc
      ensures context == null ==> r == Err(NullContext)
      ensures context != null && config == null ==> r == Err(NullConfig)
      ensures context != null && config != null && irc == null ==> r == Err(NullIrc)
      ensures (context == null || config == null) && irc != null ==>
                irc.listeners == old(irc.listeners) && irc.connectRequests == old(irc.connectRequests)
      ensures context != null && config != null && irc != null ==>
                && attempt != null && fresh(attempt) && listener != null && fresh(listener)
                && listener.connection == attempt && attempt.irc == irc && attempt.GetClient() == irc
                && attempt.connectionListener == connectionListener
                && irc.listeners == old(irc.listeners) + {listener}
                && irc.connectRequests == old(irc.connectRequests) + [params]
                && irc.sent == old(irc.sent) && irc.disconnectRequests == old(irc.disconnectRequests)
                && (ConnectOutcome(reply).Err? ==>
                      r == Err(ConnectOutcome(reply).error) && attempt.built == []
                      && attempt.identity == null && attempt.message == null && attempt.channel == null
                      && attempt.presence == null && attempt.channelLister == null
                      && attempt.connectionState == null && !attempt.IsConnected())
                && (ConnectOutcome(reply).Ok? ==>
                      r == Ok(attempt) && attempt.Valid()
                      && attempt.connectionState == ConnectOutcome(reply).value
                      && (attempt.IsConnected() <==> ConnectOutcome(reply).value.connected))
    {
      attempt, listener := null, null;
      if context == null {
        return Err(NullContext), attempt, listener;
      }
      if config == null {
        return Err(NullConfig), attempt, listener;
      }
      if irc == null {
        return Err(NullIrc), attempt, listener;
      }
      var c := new IrcConnection.Begin(context, config, irc, connectionListener);
      attempt := c;
      var l := new ServerListener(c);
      listener := l;
      irc.AddListener(l);
      var state := ConnectSynchronized(params, irc, reply);
      if state.Err? {
        return Err(state.error), attempt, listener;
      }
      c.Establish(state.value);
      r := Ok(c);
    }

    /**
     * The constructor's steps after a successful connect: store the state, then
     * build identity, message, channel, presence and channel-lister managers,
     * in that order, each given the state.
     */
    method Establish(s: IrcState)
      requires built == []
      modifies this
      ensures Valid() && connectionState == s
    {
      connectionState := s;
      identity, message, channel, presence, channelLister, built := BuildManagers(s);
    }

    /** The five sub-managers, each given `state`, and the kinds in the order they are built. */
    static method BuildManagers(state: IrcState)
      returns (identity: SubManager, message: SubManager, channel: SubManager,
               presence: SubManager, channelLister: SubManager, ghost log: seq<ManagerKind>)
      ensures identity.kind == Identity && identity.state == state
      ensures message.kind == Message && message.state == state
      ensures channel.kind == Channel && channel.state == state
      ensures presence.kind == Presence && presence.state == state
      ensures channelLister.kind == ChannelLister && channelLister.state == state
      ensures log == BUILD_ORDER
    {
      identity := new SubManager(Identity, state);
      log := [Identity];
      message := new SubManager(Message, state);
      log := log + [Message];
      channel := new SubManager(Channel, state);
      log := log + [Channel];
      presence := new SubManager(Presence, state);
      log := log + [Presence];
      channelLister := new SubManager(ChannelLister, state);
      log := log + [ChannelLister];
    }

    /**
     * `connectSynchronized`: issues the connect, lets the callback complete a
     * fresh container, and decides once the container is done.
     */
    static method ConnectSynchronized(params: ServerParameters, irc: IrcClient, reply: ConnectReply)
      returns (r: Outcome<IrcState, ConnectError>)
      modifies irc
      ensures r == ConnectOutcome(reply)
      ensures irc.connectRequests == old(irc.connectRequests) + [params]
      ensures irc.listeners == old(irc.listeners) && irc.sent == old(irc.sent)
      ensures irc.disconnectRequests == old(irc.disconnectRequests)
    {
      var result := new Sync.Result<IrcState, LibraryException>();
      irc.Connect(params);
      match reply {
        case OnSuccess(s) => result.SetDoneValue(s);
        case OnFailure(e) => result.SetDoneException(e);
      }
      // The caller's wait loop ends once the callback has marked the container done.
      assert result.IsDone();
      r := AfterWait(result.Current());
    }

    /** `isConnected()` */
    predicate IsConnected()
      reads this, connectionState
    {
      connectionState != null && connectionState.connected
    }

    /** `isSecureConnection()`: connected, and to a server reached over SSL. */
    predicate IsSecureConnection()
      reads this, connectionState
      ensures IsSecureConnection() ==> IsConnected()
    {
      IsConnected() && connectionState.ssl
    }

    /** `disconnect()`: asks the library to disconnect; an exception it raises is swallowed. */
    method Disconnect(libraryRaises: bool)
      modifies irc
      ensures irc.disconnectRequests == old(irc.disconnectRequests) + 1
      ensures irc.listeners == old(irc.listeners) && irc.connectRequests == old(irc.connectRequests)
      ensures irc.sent == old(irc.sent)
    {
      var outcome := irc.Disconnect(libraryRaises);
      // A RuntimeException from the library is only logged.
    }

    /** `getClient()` */
    function GetClient(): (c: IrcClient)
      ensures c == irc
    {
      irc
    }

    /** `getIdentityManager()`: never null on a constructed connection. */
    function GetIdentityManager(): (m: SubManager)
      requires Valid()
      reads this
      ensures m.kind == Identity && m.state == connectionState
    {
      identity
    }

    /** `getMessageManager()`: never null on a constructed connection. */
    function GetMessageManager(): (m: SubManager)
      requires Valid()
      reads this
      ensures m.kind == Message && m.state == connectionState
    {
      message
    }

    /** `getChannelManager()`: never null on a constructed connection. */
    function GetChannelManager(): (m: SubManager)
      requires Valid()
      reads this
      ensures m.kind == Channel && m.state == connectionState
    {
      channel
    }

    /** `getPresenceManager()`: never null on a constructed connection. */
    function GetPresenceManager(): (m: SubManager)
      requires Valid()
      reads this
      ensures m.kind == Presence && m.state == connectionState
    {
      presence
    }

    /** `getServerChannelLister()`: never null on a constructed connection. */
    function GetServerChannelLister(): (m: SubManager)
      requires Valid()
      reads this
      ensures m.kind == ChannelLister && m.state == connectionState
    {
      channelLister
    }
  }

  /** The connection's listener for server-level messages. */
  class ServerListener {
    const connection: IrcConnection

    constructor (connection: IrcConnection)
      ensures this.connection == connection
    {
      this.connection := connection;
    }

    /**
     * `onError`: always unregisters, then tells the owner that the connection
     * was interrupted when there is an owner callback.
     */
    method OnError()
      modifies connection.irc, connection.connectionListener
      ensures connection.irc.listeners == old(connection.irc.listeners) - {this}
      ensures connection.irc.connectRequests == old(connection.irc.connectRequests)
      ensures connection.irc.sent == old(connection.irc.sent)
      ensures connection.irc.disconnectRequests == old(connection.irc.disconnectRequests)
      ensures connection.connectionListener != null ==>
                connection.connectionListener.interrupted
                == old(connection.connectionListener.interrupted) + [connection]
    {
      connection.irc.DeleteListener(this);
      if connection.connectionListener != null {
        connection.connectionListener.ConnectionInterrupted(connection);
      }
    }

    /**
     * `onUserQuit`: a quit by anyone but the local user changes nothing; the
     * local user's quit is handled as an error is. The listener is registered
     * before the connection state is assigned and stays registered after a
     * failed connect, so a quit may arrive while the state is null: reading
     * the nickname then throws, and nothing changes.
     */
    method OnUserQuit(nick: Option<string>) returns (r: Outcome<(), HandlerError>)
      modifies connection.irc, connection.connectionListener
      ensures connection.connectionState == null ==>
                r == Err(NullStateDereference) && unchanged(connection.irc)
                && (connection.connectionListener != null ==> unchanged(connection.connectionListener))
      ensures connection.connectionState != null ==> r == Ok(())
      ensures connection.connectionState != null && nick != Some(connection.connectionState.nickname) ==>
                unchanged(connection.irc) && (connection.connectionListener != null ==> unchanged(connection.connectionListener))
      ensures connection.connectionState != null && nick == Some(connection.connectionState.nickname) ==>
                && connection.irc.listeners == old(connection.irc.listeners) - {this}
                && connection.irc.connectRequests == old(connection.irc.connectRequests)
                && connection.irc.sent == old(connection.irc.sent)
                && connection.irc.disconnectRequests == old(connection.irc.disconnectRequests)
                && (connection.connectionListener != null ==>
                      connection.connectionListener.interrupted
                      == old(connection.connectionListener.interrupted) + [connection])
    {
      if connection.connectionState == null {
        return Err(NullStateDereference);
      }
      r := Ok(());
      if nick != Some(connection.connectionState.nickname) {
        return;
      }
      connection.irc.DeleteListener(this);
      if connection.connectionListener != null {
        connection.connectionListener.ConnectionInterrupted(connection);
      }
    }
  }
}
