/**
 * Custom SIP headers configured on an account. Account properties of the form
 * `ConfigHeader.N.Name`, `ConfigHeader.N.Value` and, optionally,
 * `ConfigHeader.N.Method` describe header N. Every request (never a
 * response) gets each configured header whose method, if any, matches the
 * request method, ignoring case. Before a header is attached, the
 * placeholders `${from.address}`, `${to.address}` and `${to.userID}` in its
 * value are replaced with the request's From URI, its To URI and the user
 * part of the To URI (the From and To header fields of sections 20.20 and
 * 20.39 of RFC 3261; the user part of section 19.1.1).
 *
 * The account properties are a map; the order in which they, and then the
 * header groups, are visited is not specified, so the model takes the
 * properties as a sequence in visiting order and records the order of the
 * groups as a ghost result.
 */
module ConfigHeaders {
  import opened Wrappers
  import opened JavaStrings

  const CONFIG_HEADER: string := "ConfigHeader"
  const NAME: string := "Name"
  const VALUE: string := "Value"
  const METHOD: string := "Method"

  const FROM_ADDRESS: string := "${from.address}"
  const TO_ADDRESS: string := "${to.address}"
  const TO_USER_ID: string := "${to.userID}"

  /** One account property; a `None` value stands for a Java `null`. */
  datatype Property = Property(key: string, value: Option<string>)

  /** The header groups: index -> field name -> trimmed value. */
  type Groups = map<string, map<string, string>>

  // ---------------------------------------------------------------------
  // Property keys
  // ---------------------------------------------------------------------

  /** The characters a regular-expression `.` does not match: Java's line terminators. */
  predicate IsLineTerminator(c: char) {
    c == '\n' || c == '\r' || c == '\U{85}' || c == '\U{2028}' || c == '\U{2029}'
  }

  /** At the front of `s` is a match of the regular expression `ConfigHeader.`. */
  predicate MatchesAtFront(s: string) {
    |s| > |CONFIG_HEADER| && s[..|CONFIG_HEADER|] == CONFIG_HEADER && !IsLineTerminator(s[|CONFIG_HEADER|])
  }

  /**
   * `key.replaceAll("ConfigHeader.", "")`: the argument is a regular
   * expression, so every match of `ConfigHeader` followed by any one
   * character other than a line terminator, found left to right, is removed.
   */
  function StripConfigHeader(s: string): (r: string)
    ensures |r| <= |s|
    decreases |s|
  {
    if MatchesAtFront(s) then StripConfigHeader(s[|CONFIG_HEADER| + 1..])
    else if s == [] then []
    else [s[0]] + StripConfigHeader(s[1..])
  }

  /** A leading `ConfigHeader` and the character after it are removed. */
  lemma {:induction false} StripLeading(c: char, rest: string)
    requires !IsLineTerminator(c)
    ensures StripConfigHeader(CONFIG_HEADER + [c] + rest) == StripConfigHeader(rest)
  {
    var s := CONFIG_HEADER + [c] + rest;
    assert s[..|CONFIG_HEADER|] == CONFIG_HEADER && s[|CONFIG_HEADER| + 1..] == rest;
  }

  /** Text without a `C` holds no match and is kept as it is. */
  lemma {:induction false} StripWithoutMatch(s: string)
    requires 'C' !in s
    ensures StripConfigHeader(s) == s
    decreases |s|
  {
    if s != [] {
      assert !MatchesAtFront(s) by {
        if |s| > |CONFIG_HEADER| {
          assert s[..|CONFIG_HEADER|][0] == s[0];
        }
      }
      assert forall k :: 0 <= k < |s| - 1 ==> s[1..][k] == s[k + 1];
      StripWithoutMatch(s[1..]);
    }
  }

  /**
   * The header index and field name of an accepted key: the key must hold a
   * '.', and so must what remains once the `ConfigHeader.` matches are
   * removed; the index is the text before the last '.' of that rest, the
   * field name the text after it, each trimmed.
   */
  function ParseKey(key: string): (r: Option<(string, string)>)
    ensures r.Some? <==> '.' in key && '.' in StripConfigHeader(key)
    ensures r.Some? ==>
              var rest := StripConfigHeader(key);
              exists d :: LastDot(rest, d) && r.value == (Trim(rest[..d]), Trim(rest[d + 1..]))
  {
    if '.' !in key then None else SplitAtLastDot(StripConfigHeader(key))
  }

  /** `rest` cut at its last '.', both sides trimmed; nothing when it holds no '.'. */
  function SplitAtLastDot(rest: string): (r: Option<(string, string)>)
    ensures r.Some? <==> '.' in rest
    ensures r.Some? ==> exists d :: LastDot(rest, d) && r.value == (Trim(rest[..d]), Trim(rest[d + 1..]))
  {
    var d := LastIndexOfChar(rest, '.');
    if d < 0 then None
    else
      assert LastDot(rest, d);
      Some((Trim(rest[..d]), Trim(rest[d + 1..])))
  }

  /** `d` is the position of the last '.' of `rest`. */
  predicate LastDot(rest: string, d: int) {
    0 <= d < |rest| && rest[d] == '.' && '.' !in rest[d + 1..]
  }

  /** Leading and trailing blanks are absent, so `trim` keeps the text. */
  predicate NoOuterBlanks(s: string) {
    s == [] || (!IsTrimmed(s[0]) && !IsTrimmed(s[|s| - 1]))
  }

  lemma {:induction false} TrimKeeps(s: string)
    requires NoOuterBlanks(s)
    ensures Trim(s) == s
  {
    if s != [] {
      assert LeadingBlanks(s) == 0;
      assert TrailingBlanks(s) == 0;
    }
  }

  /** Text without a `C` is what remains of it behind a leading `ConfigHeader.`. */
  lemma {:induction false} StripDocumentedKey(rest: string)
    requires 'C' !in rest
    ensures StripConfigHeader(CONFIG_HEADER + "." + rest) == rest
  {
    StripLeading('.', rest);
    StripWithoutMatch(rest);
  }

  /** Neither part holds a `C`, so their join around a '.' holds none. */
  lemma {:induction false} NoCInJoin(ix: string, field: string)
    requires 'C' !in ix && 'C' !in field
    ensures 'C' !in ix + "." + field
  {
    var rest := ix + "." + field;
    assert forall k :: 0 <= k < |ix| ==> rest[k] == ix[k];
    assert forall k :: |ix| < k < |rest| ==> rest[k] == field[k - |ix| - 1];
  }

  /**
   * A key written as documented, `ConfigHeader.` then an index, a '.' and a
   * field name, is read back as that index and field name.
   */
  lemma {:induction false} ParseDocumentedKey(ix: string, field: string)
    requires 'C' !in ix && 'C' !in field && '.' !in field
    requires NoOuterBlanks(ix) && NoOuterBlanks(field)
    ensures ParseKey(CONFIG_HEADER + "." + (ix + "." + field)) == Some((ix, field))
  {
    var rest := ix + "." + field;
    NoCInJoin(ix, field);
    StripDocumentedKey(rest);
    var key := CONFIG_HEADER + "." + rest;
    assert key[|CONFIG_HEADER|] == '.';
    SplitAtLastDotOf(ix, field);
  }

  /** `ix.field`, with no '.' in `field` and no outer blanks, splits into `ix` and `field`. */
  lemma {:induction false} SplitAtLastDotOf(ix: string, field: string)
    requires '.' !in field && NoOuterBlanks(ix) && NoOuterBlanks(field)
    ensures SplitAtLastDot(ix + "." + field) == Some((ix, field))
  {
    var rest := ix + "." + field;
    LastIndexOfCharAt(ix, '.', field);
    assert rest[..|ix|] == ix && rest[|ix| + 1..] == field;
    TrimKeeps(ix);
    TrimKeeps(field);
  }

  /** A key with no index part, such as `ConfigHeader.Name`, names no header. */
  lemma {:induction false} KeyWithoutIndex(field: string)
    requires 'C' !in field && '.' !in field
    ensures ParseKey(CONFIG_HEADER + "." + field) == None
  {
    StripDocumentedKey(field);
    var key := CONFIG_HEADER + "." + field;
    assert key[|CONFIG_HEADER|] == '.';
  }

  // ---------------------------------------------------------------------
  // Grouping the properties
  // ---------------------------------------------------------------------

  /** A property is looked at when its key starts with `ConfigHeader` and it has a value. */
  predicate Considered(p: Property) {
    StartsWith(p.key, CONFIG_HEADER) && p.value.Some?
  }

  /** What a property sets, if anything: a header index, a field name and the trimmed value. */
  function Setting(p: Property): Option<(string, string, string)> {
    if !Considered(p) then None
    else
      match ParseKey(p.key)
      case None => None
      case Some((ix, name)) => Some((ix, name, Trim(p.value.value)))
  }

  /** The groups after visiting `props` in order; a later setting of a field overwrites an earlier one. */
  function Group(props: seq<Property>): Groups
    decreases |props|
  {
    if props == [] then map[]
    else
      var g := Group(props[..|props| - 1]);
      match Setting(props[|props| - 1])
      case None => g
      case Some((ix, name, v)) => g[ix := (if ix in g then g[ix] else map[])[name := v]]
  }

  /** The trimmed value of the last looked-at property naming field `name` of header `ix`. */
  function LastSetting(props: seq<Property>, ix: string, name: string): Option<string>
    decreases |props|
  {
    if props == [] then None
    else
      var last := Setting(props[|props| - 1]);
      if last.Some? && last.value.0 == ix && last.value.1 == name then Some(last.value.2)
      else LastSetting(props[..|props| - 1], ix, name)
  }

  /** `p` is looked at and its key names header `ix`. */
  predicate Names(p: Property, ix: string) {
    Setting(p).Some? && Setting(p).value.0 == ix
  }

  /** Some looked-at property names header `ix`. */
  predicate Mentioned(props: seq<Property>, ix: string) {
    exists i :: 0 <= i < |props| && Names(props[i], ix)
  }

  /**
   * Each field of each group holds the value of the last property that set
   * it, and a field no property set is absent: the grouping skips the
   * properties it does not look at, and a later setting wins.
   */
  lemma {:induction false} GroupLastWins(props: seq<Property>, ix: string, name: string)
    ensures var g := Group(props);
            match LastSetting(props, ix, name)
            case Some(v) => ix in g && name in g[ix] && g[ix][name] == v
            case None => ix !in g || name !in g[ix]
    decreases |props|
  {
    if props != [] {
      GroupLastWins(props[..|props| - 1], ix, name);
    }
  }

  /** A group exists exactly for the indexes that some looked-at property names. */
  lemma {:induction false} GroupKeys(props: seq<Property>, ix: string)
    ensures ix in Group(props) <==> Mentioned(props, ix)
    decreases |props|
  {
    if props != [] {
      GroupKeys(props[..|props| - 1], ix);
      MentionedSnoc(props, ix);
    }
  }

  /** A header is mentioned by a sequence when it is by its front or by its last property. */
  lemma {:induction false} MentionedSnoc(props: seq<Property>, ix: string)
    requires props != []
    ensures Mentioned(props, ix) <==>
              Mentioned(props[..|props| - 1], ix) || Names(props[|props| - 1], ix)
  {
    ExistsSnoc(props, props[..|props| - 1], p => Names(p, ix));
  }

  /** Some element of `xs` satisfies `P` when one of its front does or its last one does. */
  lemma {:induction false} ExistsSnoc<T>(xs: seq<T>, front: seq<T>, P: T -> bool)
    requires xs != [] && front == xs[..|xs| - 1]
    ensures (exists i :: 0 <= i < |xs| && P(xs[i])) <==>
              (exists i :: 0 <= i < |front| && P(front[i])) || P(xs[|xs| - 1])
  {
    assert forall i :: 0 <= i < |front| ==> front[i] == xs[i];
    if P(xs[|xs| - 1]) {
      assert 0 <= |xs| - 1 < |xs|;
    }
  }

  /** The first loop: visits the properties in order, filling the groups in place. */
  method GroupProperties(props: seq<Property>) returns (headers: Groups)
    ensures headers == Group(props)
  {
    headers := map[];
    var n := 0;
    while n < |props|
      invariant 0 <= n <= |props|
      invariant headers == Group(props[..n])
    {
      assert props[..n + 1][..n] == props[..n];
      var p := props[n];
      if StartsWith(p.key, CONFIG_HEADER) && p.value != None {
        var value := Trim(p.value.value);
        var key := ParseKey(p.key);
        if key.Some? {
          var (ix, name) := key.value;
          var headerValues := if ix in headers then headers[ix] else map[];
          headers := headers[ix := headerValues[name := value]];
        }
      }
      n := n + 1;
    }
    assert props[..n] == props;
  }

  // ---------------------------------------------------------------------
  // Requests and placeholder substitution
  // ---------------------------------------------------------------------

  /** A URI as the request reports it: its text, its scheme and whether it is a SIP URI. */
  datatype Uri = Uri(text: string, scheme: string, isSip: bool)

  /** An outgoing message: a response, or a request with its method and optional From and To URIs. */
  datatype SipMessage =
    | Response
    | Request(verb: string, from: Option<string>, to: Option<Uri>)

  /**
   * `${to.userID}`: the To URI without its first `scheme:` when it is a SIP
   * URI, cut before the first '@' if there is one.
   */
  function UserId(to: Uri): (r: string)
    ensures '@' !in r
    ensures var addr := if to.isSip then ReplaceFirst(to.text, to.scheme + ":", "") else to.text;
            r <= addr && (r == addr <==> '@' !in addr)
    // a cut address is cut at its first '@'
    ensures var addr := if to.isSip then ReplaceFirst(to.text, to.scheme + ":", "") else to.text;
            '@' in addr ==> |r| < |addr| && addr[|r|] == '@'
  {
    var addr := if to.isSip then ReplaceFirst(to.text, to.scheme + ":", "") else to.text;
    var index := IndexOfChar(addr, '@');
    if index > -1 then addr[..index] else addr
  }

  /** `value` with `p` replaced by `q` when `p` occurs in it. */
  function SubstituteIfPresent(value: string, p: string, q: Option<string>): string
    requires p != []
  {
    if IndexOf(value, p) != -1 && q.Some? then Replace(value, p, q.value) else value
  }

  /** `processParams(value, request)`: the three placeholders, in turn, each only when its header is present. */
  function ProcessParams(value: string, request: SipMessage): string
    requires request.Request?
  {
    var v1 := SubstituteIfPresent(value, FROM_ADDRESS, request.from);
    var v2 := SubstituteIfPresent(v1, TO_ADDRESS, ToAddress(request));
    SubstituteIfPresent(v2, TO_USER_ID, ToUserId(request))
  }

  /** What `${to.address}` stands for: the To URI, when the request has a To header. */
  function ToAddress(request: SipMessage): Option<string>
    requires request.Request?
  {
    if request.to.Some? then Some(request.to.value.text) else None
  }

  /** What `${to.userID}` stands for: the user part of the To URI, when there is one. */
  function ToUserId(request: SipMessage): Option<string>
    requires request.Request?
  {
    if request.to.Some? then Some(UserId(request.to.value)) else None
  }

  /** `value` with every `p` replaced by `q` when there is a `q`, without looking first. */
  function SubstituteAlways(value: string, p: string, q: Option<string>): string
    requires p != []
  {
    if q.Some? then Replace(value, p, q.value) else value
  }

  /** Looking for the placeholder first changes nothing: replacing an absent one keeps the text. */
  lemma {:induction false} SubstituteLooksFirst(value: string, p: string, q: Option<string>)
    requires p != []
    ensures SubstituteIfPresent(value, p, q) == SubstituteAlways(value, p, q)
  {
    if q.Some? && IndexOf(value, p) == -1 {
      ReplaceAbsent(value, p, q.value);
    }
  }

  /**
   * `processParams` is three replacements in turn, `${from.address}`, then
   * `${to.address}`, then `${to.userID}`, each made exactly when its header
   * is present.
   */
  lemma {:induction false} ProcessParamsInSteps(value: string, request: SipMessage)
    requires request.Request?
    ensures ProcessParams(value, request)
            == SubstituteAlways(SubstituteAlways(SubstituteAlways(value, FROM_ADDRESS, request.from),
                                                 TO_ADDRESS, ToAddress(request)),
                                TO_USER_ID, ToUserId(request))
  {
    var v1 := SubstituteIfPresent(value, FROM_ADDRESS, request.from);
    var v2 := SubstituteIfPresent(v1, TO_ADDRESS, ToAddress(request));
    SubstituteLooksFirst(value, FROM_ADDRESS, request.from);
    SubstituteLooksFirst(v1, TO_ADDRESS, ToAddress(request));
    SubstituteLooksFirst(v2, TO_USER_ID, ToUserId(request));
  }

  /** A value with no placeholder in it is returned unchanged. */
  lemma {:induction false} NoPlaceholderUnchanged(value: string, request: SipMessage)
    requires request.Request?
    requires IndexOf(value, FROM_ADDRESS) == -1 && IndexOf(value, TO_ADDRESS) == -1
    requires IndexOf(value, TO_USER_ID) == -1
    ensures ProcessParams(value, request) == value
  {
  }

  /** With neither a From nor a To header every placeholder is left as it is. */
  lemma {:induction false} MissingHeadersKeepPlaceholders(value: string, verb: string)
    ensures ProcessParams(value, Request(verb, None, None)) == value
  {
  }

  /**
   * With a From header and no To header, every `${from.address}` becomes the
   * From URI and the To placeholders are kept.
   */
  lemma {:induction false} FromAddressReplaced(value: string, verb: string, from: string)
    ensures ProcessParams(value, Request(verb, Some(from), None)) == Replace(value, FROM_ADDRESS, from)
  {
    ProcessParamsInSteps(value, Request(verb, Some(from), None));
  }

  /**
   * With a To header, every `${to.address}` becomes the To URI and then every
   * `${to.userID}` its user part; without a From header `${from.address}` is kept.
   */
  lemma {:induction false} ToAddressReplaced(value: string, verb: string, to: Uri)
    ensures ProcessParams(value, Request(verb, None, Some(to)))
            == Replace(Replace(value, TO_ADDRESS, to.text), TO_USER_ID, UserId(to))
  {
    ProcessParamsInSteps(value, Request(verb, None, Some(to)));
  }

  /** Without a To header, `${to.address}` and `${to.userID}` are kept, whatever the From header. */
  lemma {:induction false} ToPlaceholdersKeptWithoutTo(value: string, verb: string, from: Option<string>)
    ensures ProcessParams(value, Request(verb, from, None)) == SubstituteAlways(value, FROM_ADDRESS, from)
  {
    ProcessParamsInSteps(value, Request(verb, from, None));
  }

  /** The user part of `scheme:user@host` is `user`, as for `sip:alice@example.com`. */
  lemma {:induction false} UserIdOfSipUri(scheme: string, user: string, host: string)
    requires '@' !in user
    ensures UserId(Uri(scheme + ":" + (user + "@" + host), scheme, true)) == user
  {
    ReplaceFirstAtFront(scheme + ":", user + "@" + host, "");
    var addr := user + "@" + host;
    assert "" + addr == addr;
    assert addr == user + ['@'] + host;
    IndexOfCharAt(user, '@', host);
    assert addr[..|user|] == user;
  }

  // ---------------------------------------------------------------------
  // Selecting and attaching the groups
  // ---------------------------------------------------------------------

  /** A header configured by a group: its name and its value after substitution. */
  datatype Header = Header(name: string, value: string)

  /**
   * A group is attached to a request when it has a Name and a Value and it
   * either has no Method or one equal, ignoring case, to the request method.
   */
  predicate Selected(group: map<string, string>, verb: string) {
    (METHOD !in group || EqualsIgnoreCase(verb, group[METHOD]))
    && NAME in group && VALUE in group
  }

  /** The header a selected group configures for `request`. */
  function HeaderOf(group: map<string, string>, request: SipMessage): Header
    requires request.Request? && NAME in group && VALUE in group
  {
    Header(group[NAME], ProcessParams(group[VALUE], request))
  }

  /**
   * The headers attached, in order, when the groups are visited in `order`;
   * `creatable(name, value)` says whether the header factory accepts them.
   * A group that is not selected, or whose header cannot be created, is
   * skipped and the others are still attached.
   */
  function AttachAll(groups: Groups, order: seq<string>, request: SipMessage,
                     creatable: (string, string) -> bool): seq<Header>
    requires request.Request?
    requires forall k :: 0 <= k < |order| ==> order[k] in groups
    decreases |order|
  {
    if order == [] then []
    else
      var before := AttachAll(groups, order[..|order| - 1], request, creatable);
      var g := groups[order[|order| - 1]];
      if Selected(g, request.verb) && creatable(g[NAME], ProcessParams(g[VALUE], request))
      then before + [HeaderOf(g, request)]
      else before
  }

  /** Visiting one more group attaches its header exactly when it is selected and can be created. */
  lemma {:induction false} AttachSnoc(groups: Groups, order: seq<string>, ix: string, request: SipMessage,
                                      creatable: (string, string) -> bool)
    requires request.Request?
    requires forall k :: 0 <= k < |order| ==> order[k] in groups
    requires ix in groups
    ensures forall k :: 0 <= k < |order + [ix]| ==> (order + [ix])[k] in groups
    ensures AttachAll(groups, order + [ix], request, creatable)
            == AttachAll(groups, order, request, creatable)
               + (if Attachable(groups, ix, request, creatable) then [HeaderOf(groups[ix], request)] else [])
  {
    assert (order + [ix])[..|order|] == order;
  }

  /** The group at `ix` is selected and its header can be created. */
  predicate Attachable(groups: Groups, ix: string, request: SipMessage, creatable: (string, string) -> bool)
    requires request.Request? && ix in groups
  {
    var g := groups[ix];
    Selected(g, request.verb) && creatable(g[NAME], ProcessParams(g[VALUE], request))
  }

  /**
   * Every attached header comes from a selected group whose header could be
   * created, and every such group's header is attached, whatever happens to
   * the others.
   */
  lemma {:induction false} AttachedExactly(groups: Groups, order: seq<string>, request: SipMessage,
                                           creatable: (string, string) -> bool, h: Header)
    requires request.Request?
    requires forall k :: 0 <= k < |order| ==> order[k] in groups
    ensures h in AttachAll(groups, order, request, creatable) <==>
              exists k :: 0 <= k < |order| && Attachable(groups, order[k], request, creatable)
                          && h == HeaderOf(groups[order[k]], request)
    decreases |order|
  {
    if order != [] {
      var front := order[..|order| - 1];
      AttachedExactly(groups, front, request, creatable, h);
      var before := AttachAll(groups, front, request, creatable);
      var last := |order| - 1;
      if h in AttachAll(groups, order, request, creatable) {
        if h in before {
          var k :| 0 <= k < |front| && Attachable(groups, front[k], request, creatable)
                   && h == HeaderOf(groups[front[k]], request);
          assert order[k] == front[k];
        } else {
          assert Attachable(groups, order[last], request, creatable)
                 && h == HeaderOf(groups[order[last]], request);
        }
      }
      if exists k :: 0 <= k < |order| && Attachable(groups, order[k], request, creatable)
                     && h == HeaderOf(groups[order[k]], request) {
        var k :| 0 <= k < |order| && Attachable(groups, order[k], request, creatable)
                 && h == HeaderOf(groups[order[k]], request);
        if k < last {
          assert front[k] == order[k];
        }
      }
    }
  }

  /** Never more headers are attached than groups are visited. */
  lemma {:induction false} AttachedAtMostOnePerGroup(groups: Groups, order: seq<string>, request: SipMessage,
                                                     creatable: (string, string) -> bool)
    requires request.Request?
    requires forall k :: 0 <= k < |order| ==> order[k] in groups
    ensures |AttachAll(groups, order, request, creatable)| <= |order|
    decreases |order|
  {
    if order != [] {
      AttachedAtMostOnePerGroup(groups, order[..|order| - 1], request, creatable);
    }
  }

  /** Some selected group of `groups` whose header can be created configures `h`. */
  predicate Configures(groups: Groups, request: SipMessage, creatable: (string, string) -> bool, h: Header)
    requires request.Request?
  {
    exists ix :: ix in groups && Attachable(groups, ix, request, creatable) && h == HeaderOf(groups[ix], request)
  }

  /**
   * When every group is visited, the headers attached do not depend on the
   * order: they are exactly those the selected, creatable groups configure.
   */
  lemma {:induction false} AttachedWhateverTheOrder(groups: Groups, order: seq<string>, request: SipMessage,
                                                    creatable: (string, string) -> bool)
    requires request.Request?
    requires forall k :: 0 <= k < |order| ==> order[k] in groups
    requires forall ix :: ix in groups ==> ix in order
    ensures forall h :: h in AttachAll(groups, order, request, creatable) <==> Configures(groups, request, creatable, h)
  {
    forall h ensures h in AttachAll(groups, order, request, creatable) <==> Configures(groups, request, creatable, h) {
      AttachedExactly(groups, order, request, creatable, h);
      if Configures(groups, request, creatable, h) {
        var ix :| ix in groups && Attachable(groups, ix, request, creatable) && h == HeaderOf(groups[ix], request);
        var k :| 0 <= k < |order| && order[k] == ix;
      }
    }
  }

  /** The elements of `s` are pairwise distinct. */
  predicate Distinct(s: seq<string>) {
    forall i, j :: 0 <= i < j < |s| ==> s[i] != s[j]
  }

  /**
   * `attachConfigHeaders(message, provider)`: nothing for a response; for a
   * request, the properties are grouped and then every group is visited
   * once, in an unspecified order (`order`), attaching the headers of the
   * selected groups that the header factory accepts.
   */
  method AttachConfigHeaders(message: SipMessage, props: seq<Property>, creatable: (string, string) -> bool)
    returns (attached: seq<Header>, ghost order: seq<string>)
    ensures message.Response? ==> attached == [] && order == []
    ensures message.Request? ==>
              && (forall k :: 0 <= k < |order| ==> order[k] in Group(props))
              && (forall ix :: ix in Group(props) ==> ix in order)
              && Distinct(order)
              && attached == AttachAll(Group(props), order, message, creatable)
    ensures message.Request? ==>
              forall h :: h in attached <==> Configures(Group(props), message, creatable, h)
  {
    attached, order := [], [];
    if message.Response? {
      return;
    }
    var headers := GroupProperties(props);
    var remaining := headers.Keys;
    while remaining != {}
      invariant remaining <= headers.Keys
      invariant forall k :: 0 <= k < |order| ==> order[k] in headers && order[k] !in remaining
      invariant forall ix :: ix in headers ==> ix in remaining || ix in order
      invariant Distinct(order)
      invariant attached == AttachAll(headers, order, message, creatable)
      decreases remaining
    {
      var ix :| ix in remaining;
      var headerValues := headers[ix];
      var configured := if METHOD in headerValues then Some(headerValues[METHOD]) else None;
      AttachSnoc(headers, order, ix, message, creatable);
      if (configured.Some? && !EqualsIgnoreCase(message.verb, configured.value))
         || NAME !in headerValues || VALUE !in headerValues {
      } else {
        var value := ProcessParams(headerValues[VALUE], message);
        if creatable(headerValues[NAME], value) {
          attached := attached + [Header(headerValues[NAME], value)];
        }
      }
      order := order + [ix];
      remaining := remaining - {ix};
    }
    AttachedWhateverTheOrder(headers, order, message, creatable);
  }
}
