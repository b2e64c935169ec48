/**
 * The irc-api client library as the connection core sees it: the set of
 * registered listeners, the connect / message / disconnect requests it was
 * given, and the live connection state it hands back after a connect. The
 * library's own behaviour (sockets, threads, parsing) is not modelled.
 */
module IrcApi {
  import opened Wrappers

  /** `IServerParameters`: where to connect to. */
  datatype ServerParameters = ServerParameters(host: string, port: int, secure: bool)

  /** An exception reported by the library (an `Exception` or a `RuntimeException`). */
  datatype LibraryException = LibraryException(message: string)

  /**
   * `IIRCState`: the library's live view of an established connection. The
   * library may change the nickname and the connected flag; the server
   * descriptor's SSL flag is fixed.
   */
  class IrcState {
    var nickname: string
    var connected: bool
    const ssl: bool

    constructor (nickname: string, connected: bool, ssl: bool)
      ensures this.nickname == nickname && this.connected == connected && this.ssl == ssl
    {
      this.nickname := nickname;
      this.connected := connected;
      this.ssl := ssl;
    }
  }

  /** `IRCApi`: the client instance, reduced to what it records. */
  class IrcClient {
    var listeners: set<object>
    var connectRequests: seq<ServerParameters>
    var sent: seq<(string, string)>
    var disconnectRequests: nat

    constructor ()
      ensures listeners == {} && connectRequests == [] && sent == [] && disconnectRequests == 0
    {
      listeners, connectRequests, sent, disconnectRequests := {}, [], [], 0;
    }

    /** `addListener(l)` */
    method AddListener(l: object)
      modifies this
      ensures listeners == old(listeners) + {l}
      ensures connectRequests == old(connectRequests) && sent == old(sent)
      ensures disconnectRequests == old(disconnectRequests)
    {
      listeners := listeners + {l};
    }

    /** `deleteListener(l)`: removing a listener that is not registered changes nothing. */
    method DeleteListener(l: object)
      modifies this
      ensures listeners == old(listeners) - {l}
      ensures connectRequests == old(connectRequests) && sent == old(sent)
      ensures disconnectRequests == old(disconnectRequests)
    {
      listeners := listeners - {l};
    }

    /** `connect(params, callback)`: records the request; the callback is delivered by the caller of the model. */
    method Connect(params: ServerParameters)
      modifies this
      ensures connectRequests == old(connectRequests) + [params]
      ensures listeners == old(listeners) && sent == old(sent)
      ensures disconnectRequests == old(disconnectRequests)
    {
      connectRequests := connectRequests + [params];
    }

    /** `message(target, text)`: one outbound private message. */
    method Message(target: string, text: string)
      modifies this
      ensures sent == old(sent) + [(target, text)]
      ensures listeners == old(listeners) && connectRequests == old(connectRequests)
      ensures disconnectRequests == old(disconnectRequests)
    {
      sent := sent + [(target, text)];
    }

    /**
     * `disconnect()`: the library may raise a `RuntimeException` (such as a
     * closed-channel exception); whether it does is the parameter `raises`.
     */
    method Disconnect(raises: bool) returns (r: Outcome<(), LibraryException>)
      modifies this
      ensures r.Err? <==> raises
      ensures disconnectRequests == old(disconnectRequests) + 1
      ensures listeners == old(listeners) && connectRequests == old(connectRequests)
      ensures sent == old(sent)
    {
      disconnectRequests := disconnectRequests + 1;
      r := if raises then Err(LibraryException("channel closed")) else Ok(());
    }
  }
}
