/**
 * The `recording` element of a Colibri conference: its `state` attribute,
 * written as "on" or "off" and read back ignoring case, and its `token`
 * attribute. The element's attributes live in the attribute store of the
 * generic packet extension, here a map from attribute name to text.
 */
module Recording {
  import opened Wrappers
  import opened JavaStrings

  const ELEMENT_NAME: string := "recording"
  const STATE_ATTR_NAME: string := "state"
  const TOKEN_ATTR_NAME: string := "token"

  /** Whether the conference is being recorded. */
  datatype State = On | Off

  /** `State.toString`: the attribute text of a state. */
  function StateName(st: State): (r: string)
    ensures st == On ==> r == "on"
    ensures st == Off ==> r == "off"
  {
    match st
    case On => "on"
    case Off => "off"
  }

  /**
   * `State.parseString`: text equal to "on" ignoring case reads as `On`;
   * anything else, a missing attribute included, reads as `Off`.
   */
  function ParseState(s: Option<string>): (st: State)
    ensures st == On <==> s.Some? && EqualsIgnoreCase(StateName(On), s.value)
  {
    if s.Some? && EqualsIgnoreCase(StateName(On), s.value) then On else Off
  }

  /** Reading back what was written gives the state that was written. */
  lemma {:induction false} ParseStateName(st: State)
    ensures ParseState(Some(StateName(st))) == st
  {
    if st == Off {
      assert StateName(Off)[0] == 'o' && StateName(Off)[1] == 'f';
      assert !EqualsIgnoreCase(StateName(On), StateName(Off)) by {
        assert LowerAscii('n') != LowerAscii('f');
      }
    }
  }

  /** The two states have different names, so writing loses nothing. */
  lemma {:induction false} StateNameInjective(a: State, b: State)
    requires StateName(a) == StateName(b)
    ensures a == b
  {
    ParseStateName(a);
    ParseStateName(b);
  }

  /** Any capitalisation of "on" reads as `On`. */
  lemma {:induction false} UpperCaseOn(s: string)
    requires s == "ON" || s == "On" || s == "oN"
    ensures ParseState(Some(s)) == On
  {
    assert LowerAscii('O') == 'o' && LowerAscii('N') == 'n';
  }

  /** Text of any length other than two can never read as `On`. */
  lemma {:induction false} WrongLengthIsOff(s: string)
    requires |s| != 2
    ensures ParseState(Some(s)) == Off
  {
  }

  /** Two texts equal ignoring case read as the same state. */
  lemma {:induction false} ParseIgnoresCase(s: string, t: string)
    requires EqualsIgnoreCase(s, t)
    ensures ParseState(Some(s)) == ParseState(Some(t))
  {
    var on := StateName(On);
    if EqualsIgnoreCase(on, s) {
      assert forall i :: 0 <= i < |on| ==> LowerAscii(on[i]) == LowerAscii(t[i]) by {
        forall i | 0 <= i < |on| ensures LowerAscii(on[i]) == LowerAscii(t[i]) {
          assert LowerAscii(on[i]) == LowerAscii(s[i]);
        }
      }
    }
    if EqualsIgnoreCase(on, t) {
      assert forall i :: 0 <= i < |on| ==> LowerAscii(on[i]) == LowerAscii(s[i]) by {
        forall i | 0 <= i < |on| ensures LowerAscii(on[i]) == LowerAscii(s[i]) {
          assert LowerAscii(on[i]) == LowerAscii(t[i]);
        }
      }
    }
  }

  /** A `recording` element with its attribute store. */
  class RecordingExtension {
    /** The attributes set on the element, by name. */
    var attributes: map<string, string>

    /** A new element carries no attributes. */
    constructor()
      ensures attributes == map[]
    {
      attributes := map[];
    }

    /** The text of an attribute, or `None` when it is not set. */
    function Attribute(name: string): (r: Option<string>)
      reads this
      ensures r.Some? <==> name in attributes
      ensures r.Some? ==> r.value == attributes[name]
    {
      if name in attributes then Some(attributes[name]) else None
    }

    /** `getState`: the `state` attribute, parsed. */
    function GetState(): State
      reads this
    {
      ParseState(Attribute(STATE_ATTR_NAME))
    }

    /** `setState`: writes the state's name to the `state` attribute. */
    method SetState(st: State)
      modifies this
      ensures attributes == old(attributes)[STATE_ATTR_NAME := StateName(st)]
      ensures GetState() == st
      ensures Attribute(TOKEN_ATTR_NAME) == old(Attribute(TOKEN_ATTR_NAME))
    {
      attributes := attributes[STATE_ATTR_NAME := StateName(st)];
      ParseStateName(st);
    }

    /** `getToken`: the `token` attribute. */
    function GetToken(): Option<string>
      reads this
    {
      Attribute(TOKEN_ATTR_NAME)
    }

    /** `setToken`: writes the `token` attribute. */
    method SetToken(token: string)
      modifies this
      ensures attributes == old(attributes)[TOKEN_ATTR_NAME := token]
      ensures GetToken() == Some(token)
      ensures GetState() == old(GetState())
    {
      attributes := attributes[TOKEN_ATTR_NAME := token];
    }
  }
}
