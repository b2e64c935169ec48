/**
 * The CHANLIMIT capability of the IRC RPL_ISUPPORT (005) numeric: a value of
 * the form `PREFIXES:LIMIT[,PREFIXES:LIMIT...]` says how many channels of
 * each prefix kind a client may join. `ParseChanLimit` fills a caller's map
 * from prefix character to limit, fragment by fragment, left to right.
 *
 * Fragments that are malformed (no colon, no prefix, a prefix outside the
 * accepted alphabet, a limit that is not a non-negative 32-bit integer) are
 * dropped whole. The accepted alphabet is a parameter.
 */
module ISupport {
  import opened Wrappers
  import opened JavaStrings

  /** The largest Java `int`; a larger limit does not parse. */
  const MAX_INT: nat := 0x7fff_ffff

  /** A failure of the caller, not of the value: there is no map to fill. */
  datatype ParseError = NullDestination

  // ---------------------------------------------------------------------
  // Splitting at a separator and joining again
  // ---------------------------------------------------------------------

  /** `s` cut at every `sep`, as Java's `split` on a one-character literal (keeping empty pieces). */
  function Split(s: string, sep: char): (parts: seq<string>)
    ensures |parts| >= 1
    ensures forall i :: 0 <= i < |parts| ==> sep !in parts[i]
    decreases |s|
  {
    var i := IndexOfChar(s, sep);
    if i < 0 then [s] else [s[..i]] + Split(s[i + 1..], sep)
  }

  /** The pieces glued back with `sep` between them. */
  function Join(parts: seq<string>, sep: char): string
    requires |parts| >= 1
    decreases |parts|
  {
    if |parts| == 1 then parts[0] else parts[0] + [sep] + Join(parts[1..], sep)
  }

  /** Joining a piece in front of others puts one separator between it and their join. */
  lemma {:induction false} JoinCons(a: string, rest: seq<string>, sep: char)
    requires |rest| >= 1
    ensures Join([a] + rest, sep) == a + [sep] + Join(rest, sep)
  {
    var parts := [a] + rest;
    assert parts[0] == a && parts[1..] == rest;
  }

  /** Splitting loses nothing: joining the pieces gives the value back. */
  lemma {:induction false} JoinSplit(s: string, sep: char)
    ensures Join(Split(s, sep), sep) == s
    decreases |s|
  {
    var i := IndexOfChar(s, sep);
    if i >= 0 {
      var a, b := s[..i], s[i + 1..];
      assert s == a + [sep] + b by {
        assert s[i] == sep;
      }
      var rest := Split(b, sep);
      assert Split(s, sep) == [a] + rest;
      JoinSplit(b, sep);
      JoinCons(a, rest, sep);
    }
  }

  /** Pieces without the separator are split apart exactly where they were joined. */
  lemma {:induction false} SplitJoin(parts: seq<string>, sep: char)
    requires |parts| >= 1
    requires forall i :: 0 <= i < |parts| ==> sep !in parts[i]
    ensures Split(Join(parts, sep), sep) == parts
    decreases |parts|
  {
    var s := Join(parts, sep);
    if |parts| == 1 {
      assert IndexOfChar(s, sep) == -1;
    } else {
      var rest := Join(parts[1..], sep);
      assert s == parts[0] + [sep] + rest;
      IndexOfCharAt(parts[0], sep, rest);
      var i := |parts[0]|;
      assert s[..i] == parts[0];
      assert s[i + 1..] == rest;
      SplitJoin(parts[1..], sep);
    }
  }

  // ---------------------------------------------------------------------
  // Limits: non-negative decimal integers up to MAX_INT
  // ---------------------------------------------------------------------

  predicate IsDigit(c: char) {
    '0' <= c <= '9'
  }

  predicate AllDigits(s: string) {
    forall i :: 0 <= i < |s| ==> IsDigit(s[i])
  }

  /** The number the decimal digits `s` spell, most significant first. */
  function DecimalValue(s: string): nat
    requires AllDigits(s)
    decreases |s|
  {
    if s == [] then 0 else DecimalValue(s[..|s| - 1]) * 10 + (s[|s| - 1] as int - '0' as int)
  }

  /** The shortest decimal spelling of `n`. */
  function DecimalString(n: nat): (s: string)
    ensures s != [] && AllDigits(s)
    decreases n
  {
    var d := [(('0' as int) + n % 10) as char];
    if n < 10 then d else DecimalString(n / 10) + d
  }

  /** A limit: a non-empty run of decimal digits whose value fits in a Java `int`. */
  function ParseLimit(s: string): (r: Option<nat>)
    ensures r.Some? <==> s != [] && AllDigits(s) && DecimalValue(s) <= MAX_INT
    ensures r.Some? ==> r.value == DecimalValue(s) && r.value <= MAX_INT
  {
    if s != [] && AllDigits(s) && DecimalValue(s) <= MAX_INT then Some(DecimalValue(s)) else None
  }

  /** Reading back the decimal spelling of a number gives that number. */
  lemma {:induction false} DecimalRoundTrip(n: nat)
    ensures DecimalValue(DecimalString(n)) == n
    decreases n
  {
    var d := [(('0' as int) + n % 10) as char];
    if n >= 10 {
      DecimalRoundTrip(n / 10);
      var s := DecimalString(n / 10) + d;
      assert s[..|s| - 1] == DecimalString(n / 10);
    } else {
      assert d[..0] == [];
    }
  }

  /** Every `int`-sized limit written in decimal parses back to itself. */
  lemma {:induction false} ParseLimitOfDecimal(n: nat)
    requires n <= MAX_INT
    ensures ParseLimit(DecimalString(n)) == Some(n)
  {
    DecimalRoundTrip(n);
  }

  /** A run of `'0'` characters, possibly empty. */
  predicate AllZeros(z: string) {
    forall i :: 0 <= i < |z| ==> z[i] == '0'
  }

  lemma {:induction false} ZerosValue(z: string)
    requires AllZeros(z)
    ensures AllDigits(z) && DecimalValue(z) == 0
    decreases |z|
  {
    if z != [] {
      ZerosValue(z[..|z| - 1]);
    }
  }

  /** Leading zeros do not change the value of a decimal spelling. */
  lemma {:induction false} LeadingZerosIgnored(z: string, t: string)
    requires AllZeros(z) && AllDigits(t)
    ensures AllDigits(z + t) && DecimalValue(z + t) == DecimalValue(t)
    decreases |t|
  {
    if t == [] {
      assert z + t == z;
      ZerosValue(z);
    } else {
      var u := t[..|t| - 1];
      LeadingZerosIgnored(z, u);
      assert (z + t)[..|z + t| - 1] == z + u;
    }
  }

  /** A single digit is its own shortest spelling. */
  lemma DecimalStringOfDigit(c: char)
    requires IsDigit(c)
    ensures DecimalString(c as int - '0' as int) == [c]
  {
  }

  /** Appending a digit to the spelling of a positive number spells ten times it plus that digit. */
  lemma DecimalStringSnoc(m: nat, c: char)
    requires IsDigit(c) && m > 0
    ensures DecimalString(m * 10 + (c as int - '0' as int)) == DecimalString(m) + [c]
  {
    var v := m * 10 + (c as int - '0' as int);
    assert v / 10 == m && v % 10 == c as int - '0' as int;
  }

  /** The value of digits with one more digit appended. */
  lemma DecimalValueSnoc(u: string, c: char)
    requires AllDigits(u) && IsDigit(c)
    ensures AllDigits(u + [c]) && DecimalValue(u + [c]) == DecimalValue(u) * 10 + (c as int - '0' as int)
  {
    assert (u + [c])[..|u|] == u;
  }

  /** Appending a digit to a spelling of the leading-zeros form keeps that form. */
  lemma {:induction false} SpellingSnoc(z: string, u: string, c: char)
    requires AllZeros(z) && AllDigits(u) && IsDigit(c)
    requires u == z + DecimalString(DecimalValue(u))
    ensures AllDigits(u + [c])
    ensures exists z2 :: AllZeros(z2) && u + [c] == z2 + DecimalString(DecimalValue(u + [c]))
  {
    DecimalValueSnoc(u, c);
    if DecimalValue(u) == 0 {
      assert DecimalString(0) == ['0'];
      assert AllZeros(u) by {
        assert forall i :: 0 <= i < |z| ==> u[i] == z[i];
      }
      DecimalStringOfDigit(c);
      assert u + [c] == u + DecimalString(DecimalValue(u + [c]));
    } else {
      DecimalStringSnoc(DecimalValue(u), c);
      assert u + [c] == z + DecimalString(DecimalValue(u + [c]));
    }
  }

  /** Every decimal spelling is some leading zeros and then the shortest spelling of its value. */
  lemma {:induction false} DecimalSpelling(s: string)
    requires s != [] && AllDigits(s)
    ensures exists z :: AllZeros(z) && s == z + DecimalString(DecimalValue(s))
    decreases |s|
  {
    var u, c := s[..|s| - 1], s[|s| - 1];
    assert s == u + [c];
    if u == [] {
      DecimalValueSnoc(u, c);
      DecimalStringOfDigit(c);
      assert s == [] + DecimalString(DecimalValue(s));
    } else {
      DecimalSpelling(u);
      var z :| AllZeros(z) && u == z + DecimalString(DecimalValue(u));
      SpellingSnoc(z, u, c);
    }
  }

  /**
   * The limits accepted are exactly the `int`-sized numbers, spelled in
   * decimal with any number of leading zeros.
   */
  lemma {:induction false} ParseLimitSpelling(s: string, n: nat)
    ensures ParseLimit(s) == Some(n) <==>
              n <= MAX_INT && exists z :: AllZeros(z) && s == z + DecimalString(n)
  {
    if ParseLimit(s) == Some(n) {
      DecimalSpelling(s);
    }
    if n <= MAX_INT && exists z :: AllZeros(z) && s == z + DecimalString(n) {
      var z :| AllZeros(z) && s == z + DecimalString(n);
      LeadingZerosIgnored(z, DecimalString(n));
      DecimalRoundTrip(n);
    }
  }

  // ---------------------------------------------------------------------
  // Fragments
  // ---------------------------------------------------------------------

  /** A well-formed fragment: the prefix characters and the limit they share. */
  datatype Fragment = Fragment(prefixes: string, limit: nat)

  /** All of `p` is drawn from the accepted prefix alphabet. */
  predicate FromAlphabet(p: string, alphabet: set<char>) {
    forall i :: 0 <= i < |p| ==> p[i] in alphabet
  }

  /**
   * A fragment split at its first colon: the prefixes before it must be a
   * non-empty word over the alphabet and the limit after it must parse.
   */
  function ParseFragment(frag: string, alphabet: set<char>): (r: Option<Fragment>)
    ensures r.Some? <==>
              ':' in frag
              && var i := IndexOfChar(frag, ':');
                 frag[..i] != [] && FromAlphabet(frag[..i], alphabet) && ParseLimit(frag[i + 1..]).Some?
    ensures r.Some? ==>
              var i := IndexOfChar(frag, ':');
              r.value.prefixes == frag[..i] && Some(r.value.limit) == ParseLimit(frag[i + 1..])
  {
    var i := IndexOfChar(frag, ':');
    if i < 0 then None
    else
      var prefixes := frag[..i];
      match ParseLimit(frag[i + 1..])
      case None => None
      case Some(limit) =>
        if prefixes != [] && FromAlphabet(prefixes, alphabet) then Some(Fragment(prefixes, limit)) else None
  }

  /** A fragment written out is read back as itself. */
  lemma {:induction false} FragmentRoundTrip(prefixes: string, limit: nat, alphabet: set<char>)
    requires prefixes != [] && ':' !in prefixes && FromAlphabet(prefixes, alphabet) && limit <= MAX_INT
    ensures ParseFragment(prefixes + ":" + DecimalString(limit), alphabet) == Some(Fragment(prefixes, limit))
  {
    var frag := prefixes + ":" + DecimalString(limit);
    IndexOfCharAt(prefixes, ':', DecimalString(limit));
    assert frag[..|prefixes|] == prefixes;
    assert frag[|prefixes| + 1..] == DecimalString(limit);
    ParseLimitOfDecimal(limit);
  }

  // ---------------------------------------------------------------------
  // Applying fragments to the map
  // ---------------------------------------------------------------------

  /** Every prefix character of `prefixes` mapped to `limit`, later entries kept otherwise. */
  function ApplyLimit(m: map<char, int>, prefixes: string, limit: nat): (r: map<char, int>)
    ensures r.Keys == m.Keys + set c | c in prefixes
    ensures forall c :: c in r ==> r[c] == (if c in prefixes then limit else m[c])
    decreases |prefixes|
  {
    if prefixes == [] then m
    else
      var front := prefixes[..|prefixes| - 1];
      assert forall c :: c in prefixes <==> c in front || c == prefixes[|prefixes| - 1] by {
        assert prefixes == front + [prefixes[|prefixes| - 1]];
      }
      ApplyLimit(m, front, limit)[prefixes[|prefixes| - 1] := limit]
  }

  /** The map after the fragments `frags`, in order; a malformed fragment changes nothing. */
  function ApplyFragments(m: map<char, int>, frags: seq<string>, alphabet: set<char>): map<char, int>
    decreases |frags|
  {
    if frags == [] then m
    else
      var before := ApplyFragments(m, frags[..|frags| - 1], alphabet);
      match ParseFragment(frags[|frags| - 1], alphabet)
      case None => before
      case Some(f) => ApplyLimit(before, f.prefixes, f.limit)
  }

  /** `parseChanLimit(dest, value)` on the map alone: no value and the empty value change nothing. */
  function ChanLimits(m: map<char, int>, value: Option<string>, alphabet: set<char>): map<char, int> {
    match value
    case None => m
    case Some(s) => if s == "" then m else ApplyFragments(m, Split(s, ','), alphabet)
  }

  /** Limits in range: every value is a non-negative Java `int`. */
  predicate LimitsInRange(m: map<char, int>) {
    forall c :: c in m ==> 0 <= m[c] <= MAX_INT
  }

  /**
   * Only accepted prefix characters are added, every new value is an
   * `int`-sized non-negative limit, and no entry is removed.
   */
  lemma {:induction false} ApplyFragmentsShape(m: map<char, int>, frags: seq<string>, alphabet: set<char>)
    ensures var r := ApplyFragments(m, frags, alphabet);
            && m.Keys <= r.Keys <= m.Keys + alphabet
            && (LimitsInRange(m) ==> LimitsInRange(r))
    decreases |frags|
  {
    if frags != [] {
      ApplyFragmentsShape(m, frags[..|frags| - 1], alphabet);
      var before := ApplyFragments(m, frags[..|frags| - 1], alphabet);
      match ParseFragment(frags[|frags| - 1], alphabet)
      case None =>
      case Some(f) =>
        forall c | c in f.prefixes ensures c in alphabet {
          var k :| 0 <= k < |f.prefixes| && f.prefixes[k] == c;
        }
    }
  }

  /** The same for a whole CHANLIMIT value. */
  lemma {:induction false} ChanLimitsShape(m: map<char, int>, value: Option<string>, alphabet: set<char>)
    ensures var r := ChanLimits(m, value, alphabet);
            && m.Keys <= r.Keys <= m.Keys + alphabet
            && (LimitsInRange(m) ==> LimitsInRange(r))
  {
    if value.Some? && value.value != "" {
      ApplyFragmentsShape(m, Split(value.value, ','), alphabet);
    }
  }

  /** The valid fragment among `frags` that last mentions `c`, if any. */
  function LastFor(frags: seq<string>, alphabet: set<char>, c: char): Option<nat>
    decreases |frags|
  {
    if frags == [] then None
    else
      match ParseFragment(frags[|frags| - 1], alphabet)
      case Some(f) => if c in f.prefixes then Some(f.limit) else LastFor(frags[..|frags| - 1], alphabet, c)
      case None => LastFor(frags[..|frags| - 1], alphabet, c)
  }

  /**
   * The value of each character is the limit of the last valid fragment that
   * names it, and the old value when no valid fragment does: malformed
   * fragments never overwrite anything.
   */
  lemma {:induction false} ApplyFragmentsLastWins(m: map<char, int>, frags: seq<string>, alphabet: set<char>, c: char)
    ensures var r := ApplyFragments(m, frags, alphabet);
            match LastFor(frags, alphabet, c)
            case Some(limit) => c in r && r[c] == limit
            case None => (c in r <==> c in m) && (c in m ==> r[c] == m[c])
    decreases |frags|
  {
    if frags != [] {
      ApplyFragmentsLastWins(m, frags[..|frags| - 1], alphabet, c);
    }
  }

  /** Appending a malformed fragment changes nothing. */
  lemma {:induction false} MalformedIsDropped(m: map<char, int>, frags: seq<string>, bad: string, alphabet: set<char>)
    requires ParseFragment(bad, alphabet).None?
    ensures ApplyFragments(m, frags + [bad], alphabet) == ApplyFragments(m, frags, alphabet)
  {
    assert (frags + [bad])[..|frags|] == frags;
  }

  // ---------------------------------------------------------------------
  // The destination map and the parser as a procedure
  // ---------------------------------------------------------------------

  /** The caller's map from prefix character to channel limit, filled in place. */
  class ChanLimitMap {
    var limits: map<char, int>

    constructor ()
      ensures limits == map[]
    {
      limits := map[];
    }
  }

  /**
   * `parseChanLimit(dest, value)`: fails on a missing destination; otherwise
   * applies the fragments of `value` to `dest`, left to right.
   */
  method ParseChanLimit(dest: ChanLimitMap?, value: Option<string>, alphabet: set<char>)
    returns (r: Outcome<(), ParseError>)
    modifies dest
    ensures dest == null <==> r == Err(NullDestination)
    ensures dest != null ==> r == Ok(()) && dest.limits == ChanLimits(old(dest.limits), value, alphabet)
  {
    if dest == null {
      return Err(NullDestination);
    }
    r := Ok(());
    if value == None || value.value == "" {
      return;
    }
    var frags := Split(value.value, ',');
    ApplyAll(dest, frags, alphabet);
  }

  /** Applies the fragments `frags` to `dest`, left to right, dropping the malformed ones. */
  method ApplyAll(dest: ChanLimitMap, frags: seq<string>, alphabet: set<char>)
    modifies dest
    ensures dest.limits == ApplyFragments(old(dest.limits), frags, alphabet)
  {
    ghost var m0 := dest.limits;
    var n := 0;
    while n < |frags|
      invariant 0 <= n <= |frags|
      invariant dest.limits == ApplyFragments(m0, frags[..n], alphabet)
    {
      assert frags[..n + 1][..n] == frags[..n];
      var f := ParseFragment(frags[n], alphabet);
      if f.Some? {
        ApplyFragment(dest, f.value);
      }
      n := n + 1;
    }
    assert frags[..n] == frags;
  }

  /** Assigns the fragment's limit to each of its prefix characters, in turn. */
  method ApplyFragment(dest: ChanLimitMap, f: Fragment)
    modifies dest
    ensures dest.limits == ApplyLimit(old(dest.limits), f.prefixes, f.limit)
  {
    ghost var m0 := dest.limits;
    var j := 0;
    while j < |f.prefixes|
      invariant 0 <= j <= |f.prefixes|
      invariant dest.limits == ApplyLimit(m0, f.prefixes[..j], f.limit)
    {
      assert f.prefixes[..j + 1][..j] == f.prefixes[..j];
      dest.limits := dest.limits[f.prefixes[j] := f.limit];
      j := j + 1;
    }
    assert f.prefixes[..j] == f.prefixes;
  }

  // ---------------------------------------------------------------------
  // The cases of the parser's tests
  // ---------------------------------------------------------------------

  /** The prefix alphabet of the tests accepts `#`, `&` and `+` and rejects `^`. */
  predicate TestAlphabet(alphabet: set<char>) {
    '#' in alphabet && '&' in alphabet && '+' in alphabet && '^' !in alphabet
  }

  /** No value and the empty value leave an empty map empty. */
  lemma {:induction false} NoValueAddsNothing(alphabet: set<char>)
    ensures ChanLimits(map[], None, alphabet) == map[]
    ensures ChanLimits(map[], Some(""), alphabet) == map[]
  {
  }

  /** A value with no colon adds nothing. */
  lemma {:induction false} NoColonAddsNothing(alphabet: set<char>)
    ensures ChanLimits(map[], Some("bla"), alphabet) == map[]
  {
    assert ':' !in "bla";
    OneFragment(map[], "bla", alphabet);
    assert ["bla"][..0] == [];
  }

  /** `prefixes:limit` is read as that fragment when the prefixes are accepted. */
  lemma {:induction false} ReadFragment(prefixes: string, digits: string, alphabet: set<char>, limit: nat)
    requires prefixes != [] && ':' !in prefixes && FromAlphabet(prefixes, alphabet)
    requires ParseLimit(digits) == Some(limit)
    ensures ParseFragment(prefixes + ":" + digits, alphabet) == Some(Fragment(prefixes, limit))
  {
    var frag := prefixes + ":" + digits;
    IndexOfCharAt(prefixes, ':', digits);
    assert frag[..|prefixes|] == prefixes;
    assert frag[|prefixes| + 1..] == digits;
  }

  /** `prefixes:limit` is dropped when a prefix is not accepted or the limit does not parse. */
  lemma {:induction false} DropFragment(prefixes: string, digits: string, alphabet: set<char>)
    requires ':' !in prefixes
    requires prefixes == [] || !FromAlphabet(prefixes, alphabet) || ParseLimit(digits) == None
    ensures ParseFragment(prefixes + ":" + digits, alphabet) == None
  {
    var frag := prefixes + ":" + digits;
    IndexOfCharAt(prefixes, ':', digits);
    assert frag[..|prefixes|] == prefixes;
    assert frag[|prefixes| + 1..] == digits;
  }

  /** The value of one fragment is that fragment alone. */
  lemma {:induction false} OneFragment(m: map<char, int>, value: string, alphabet: set<char>)
    requires value != "" && ',' !in value
    ensures ChanLimits(m, Some(value), alphabet) == ApplyFragments(m, [value], alphabet)
  {
    assert Split(value, ',') == [value];
  }

  /** A single limit: each of the prefixes is mapped to it. */
  lemma {:induction false} OneLimit(prefixes: string, limit: nat)
    ensures forall c :: c in ApplyLimit(map[], prefixes, limit) <==> c in prefixes
    ensures forall c :: c in prefixes ==> ApplyLimit(map[], prefixes, limit)[c] == limit
  {
  }

  lemma {:induction false} HashTen(alphabet: set<char>)
    requires TestAlphabet(alphabet)
    ensures ParseFragment("#:10", alphabet) == Some(Fragment("#", 10))
  {
    assert DecimalValue("10") == 10 by { assert "10"[..1] == "1"; }
    ReadFragment("#", "10", alphabet, 10);
    assert "#" + ":" + "10" == "#:10";
  }

  lemma {:induction false} PlusThirty(alphabet: set<char>)
    requires TestAlphabet(alphabet)
    ensures ParseFragment("+:30", alphabet) == Some(Fragment("+", 30))
  {
    assert DecimalValue("30") == 30 by { assert "30"[..1] == "3"; }
    ReadFragment("+", "30", alphabet, 30);
    assert "+" + ":" + "30" == "+:30";
  }

  lemma {:induction false} CombinedTwentyFive(alphabet: set<char>)
    requires TestAlphabet(alphabet)
    ensures ParseFragment("#&+:25", alphabet) == Some(Fragment("#&+", 25))
  {
    assert DecimalValue("25") == 25 by { assert "25"[..1] == "2"; }
    assert ':' !in "#&+" && FromAlphabet("#&+", alphabet);
    ReadFragment("#&+", "25", alphabet, 25);
    assert "#&+" + ":" + "25" == "#&+:25";
  }

  /** A prefix outside the alphabet drops the fragment. */
  lemma {:induction false} CaretDropped(alphabet: set<char>)
    requires TestAlphabet(alphabet)
    ensures ParseFragment("^:20", alphabet) == None
  {
    assert "^"[0] !in alphabet;
    DropFragment("^", "20", alphabet);
    assert "^" + ":" + "20" == "^:20";
  }

  /** A limit that is not a number drops the fragment. */
  lemma {:induction false} NotANumberDropped(prefixes: string, alphabet: set<char>)
    requires ':' !in prefixes
    ensures ParseFragment(prefixes + ":abc", alphabet) == None
  {
    assert !IsDigit("abc"[0]);
    DropFragment(prefixes, "abc", alphabet);
  }

  /** A value made of one valid fragment maps exactly its prefixes to its limit. */
  lemma {:induction false} SingleFragmentValue(value: string, alphabet: set<char>, f: Fragment)
    requires value != "" && ',' !in value && ParseFragment(value, alphabet) == Some(f)
    ensures ChanLimits(map[], Some(value), alphabet) == ApplyLimit(map[], f.prefixes, f.limit)
  {
    OneFragment(map[], value, alphabet);
    assert [value][..0] == [];
  }

  /** The limit map of the three prefixes `#`, `&` and `+`. */
  lemma {:induction false} ThreePrefixes(p: string, limit: nat)
    requires p == "#&+"
    ensures ApplyLimit(map[], p, limit) == map['#' := limit, '&' := limit, '+' := limit]
  {
    OneLimit(p, limit);
    assert forall c :: c in p <==> c == '#' || c == '&' || c == '+';
  }

  /** "#:10" yields exactly {# -> 10}. */
  lemma {:induction false} SingleSimple(alphabet: set<char>)
    requires TestAlphabet(alphabet)
    ensures ChanLimits(map[], Some("#:10"), alphabet) == map['#' := 10]
  {
    assert ',' !in "#:10";
    HashTen(alphabet);
    SingleFragmentValue("#:10", alphabet, Fragment("#", 10));
    OneLimit("#", 10);
  }

  /** "#&+:25" gives the limit to every one of its prefixes. */
  lemma {:induction false} SingleCombined(alphabet: set<char>)
    requires TestAlphabet(alphabet)
    ensures ChanLimits(map[], Some("#&+:25"), alphabet) == map['#' := 25, '&' := 25, '+' := 25]
  {
    assert ',' !in "#&+:25";
    CombinedTwentyFive(alphabet);
    SingleFragmentValue("#&+:25", alphabet, Fragment("#&+", 25));
    ThreePrefixes("#&+", 25);
  }

  /** Five pieces joined, written out. */
  lemma {:induction false} JoinFive(a: string, b: string, c: string, d: string, e: string, sep: char)
    ensures Join([a, b, c, d, e], sep) == a + [sep] + (b + [sep] + (c + [sep] + (d + [sep] + e)))
  {
    assert [d, e][1..] == [e] && Join([d, e], sep) == d + [sep] + e;
    assert [c, d, e][1..] == [d, e] && Join([c, d, e], sep) == c + [sep] + Join([d, e], sep);
    assert [b, c, d, e][1..] == [c, d, e] && Join([b, c, d, e], sep) == b + [sep] + Join([c, d, e], sep);
    assert [a, b, c, d, e][1..] == [b, c, d, e];
  }

  /** The mixed test value is cut into its five fragments. */
  lemma {:induction false} MixedSplit(value: string, f1: string, f2: string, f3: string, f4: string, f5: string)
    requires value == "#:10,^:20,jadie:abc,+:30,#:abc"
    requires f1 == "#:10" && f2 == "^:20" && f3 == "jadie:abc" && f4 == "+:30" && f5 == "#:abc"
    ensures Split(value, ',') == [f1, f2, f3, f4, f5]
  {
    var frags := [f1, f2, f3, f4, f5];
    assert ',' !in f1 && ',' !in f2 && ',' !in f3 && ',' !in f4 && ',' !in f5;
    assert forall i :: 0 <= i < |frags| ==> ',' !in frags[i];
    SplitJoin(frags, ',');
    JoinFive(f1, f2, f3, f4, f5, ',');
    MixedJoined(value, f1, f2, f3, f4, f5);
  }

  /** The mixed test value is its fragments with commas between them. */
  lemma {:induction false} MixedJoined(value: string, f1: string, f2: string, f3: string, f4: string, f5: string)
    requires value == "#:10,^:20,jadie:abc,+:30,#:abc"
    requires f1 == "#:10" && f2 == "^:20" && f3 == "jadie:abc" && f4 == "+:30" && f5 == "#:abc"
    ensures value == f1 + [','] + (f2 + [','] + (f3 + [','] + (f4 + [','] + f5)))
  {
  }

  /** Invalid fragments are dropped whole and never overwrite an earlier valid entry. */
  lemma {:induction false} InvalidNeverOverwrites(alphabet: set<char>)
    requires TestAlphabet(alphabet)
    ensures ChanLimits(map[], Some("#:10,^:20,jadie:abc,+:30,#:abc"), alphabet) == map['#' := 10, '+' := 30]
  {
    var f1, f2, f3, f4, f5 := "#:10", "^:20", "jadie:abc", "+:30", "#:abc";
    MixedSplit("#:10,^:20,jadie:abc,+:30,#:abc", f1, f2, f3, f4, f5);
    MixedFragments(alphabet, f1, f2, f3, f4, f5);
    MixedApply(alphabet, f1, f2, f3, f4, f5);
  }

  /** How each fragment of the mixed test value is read. */
  lemma {:induction false} MixedFragments(alphabet: set<char>, f1: string, f2: string, f3: string, f4: string, f5: string)
    requires TestAlphabet(alphabet)
    requires f1 == "#:10" && f2 == "^:20" && f3 == "jadie:abc" && f4 == "+:30" && f5 == "#:abc"
    ensures ParseFragment(f1, alphabet) == Some(Fragment("#", 10))
    ensures ParseFragment(f2, alphabet) == None && ParseFragment(f3, alphabet) == None
    ensures ParseFragment(f4, alphabet) == Some(Fragment("+", 30))
    ensures ParseFragment(f5, alphabet) == None
  {
    HashTen(alphabet);
    CaretDropped(alphabet);
    JadieDropped(alphabet, f3);
    PlusThirty(alphabet);
    HashAbcDropped(alphabet, f5);
  }

  /** A word that is not a number drops the fragment. */
  lemma {:induction false} JadieDropped(alphabet: set<char>, f: string)
    requires f == "jadie:abc"
    ensures ParseFragment(f, alphabet) == None
  {
    NotANumberDropped("jadie", alphabet);
    assert "jadie" + ":abc" == f;
  }

  /** A later malformed `#` fragment. */
  lemma {:induction false} HashAbcDropped(alphabet: set<char>, f: string)
    requires f == "#:abc"
    ensures ParseFragment(f, alphabet) == None
  {
    NotANumberDropped("#", alphabet);
    assert "#" + ":abc" == f;
  }

  /** Appending a valid fragment applies its limit on top of the map so far. */
  lemma {:induction false} ValidIsApplied(m: map<char, int>, frags: seq<string>, good: string, alphabet: set<char>, f: Fragment)
    requires ParseFragment(good, alphabet) == Some(f)
    ensures ApplyFragments(m, frags + [good], alphabet) == ApplyLimit(ApplyFragments(m, frags, alphabet), f.prefixes, f.limit)
  {
    assert (frags + [good])[..|frags|] == frags;
  }

  /** A valid `#` fragment and then two malformed ones. */
  lemma {:induction false} HashThenMalformed(alphabet: set<char>, f1: string, f2: string, f3: string)
    requires ParseFragment(f1, alphabet) == Some(Fragment("#", 10))
    requires ParseFragment(f2, alphabet) == None && ParseFragment(f3, alphabet) == None
    ensures ApplyFragments(map[], [f1, f2, f3], alphabet) == map['#' := 10]
  {
    assert [f1, f2, f3] == [] + [f1] + [f2] + [f3];
    ValidIsApplied(map[], [], f1, alphabet, Fragment("#", 10));
    SingleCharLimit(map[], '#', 10);
    assert [] + [f1] == [f1];
    MalformedIsDropped(map[], [f1], f2, alphabet);
    assert [f1] + [f2] == [f1, f2];
    MalformedIsDropped(map[], [f1, f2], f3, alphabet);
  }

  lemma {:induction false} FiveAsSnoc<T>(a: T, b: T, c: T, d: T, e: T)
    ensures [a, b, c, d, e] == [a, b, c] + [d] + [e]
  {
  }

  /** A valid `+` fragment and then a malformed one, after a map holding only `#`. */
  lemma {:induction false} PlusThenMalformed(alphabet: set<char>, s3: seq<string>, f4: string, f5: string)
    requires ApplyFragments(map[], s3, alphabet) == map['#' := 10]
    requires ParseFragment(f4, alphabet) == Some(Fragment("+", 30))
    requires ParseFragment(f5, alphabet) == None
    ensures ApplyFragments(map[], s3 + [f4] + [f5], alphabet) == map['#' := 10, '+' := 30]
  {
    ValidIsApplied(map[], s3, f4, alphabet, Fragment("+", 30));
    SingleCharLimit(map['#' := 10], '+', 30);
    MalformedIsDropped(map[], s3 + [f4], f5, alphabet);
  }

  /** The five fragments of the mixed test value, as they are read, applied in order. */
  lemma {:induction false} MixedApply(alphabet: set<char>, f1: string, f2: string, f3: string, f4: string, f5: string)
    requires ParseFragment(f1, alphabet) == Some(Fragment("#", 10))
    requires ParseFragment(f2, alphabet) == None && ParseFragment(f3, alphabet) == None
    requires ParseFragment(f4, alphabet) == Some(Fragment("+", 30))
    requires ParseFragment(f5, alphabet) == None
    ensures ApplyFragments(map[], [f1, f2, f3, f4, f5], alphabet) == map['#' := 10, '+' := 30]
  {
    FiveAsSnoc(f1, f2, f3, f4, f5);
    HashThenMalformed(alphabet, f1, f2, f3);
    PlusThenMalformed(alphabet, [f1, f2, f3], f4, f5);
  }

  /** One prefix character takes the limit. */
  lemma {:induction false} SingleCharLimit(m: map<char, int>, c: char, limit: nat)
    ensures ApplyLimit(m, [c], limit) == m[c := limit]
  {
    assert [c][..0] == [];
  }

  lemma {:induction false} AmpTwenty(alphabet: set<char>)
    requires TestAlphabet(alphabet)
    ensures ParseFragment("&:20", alphabet) == Some(Fragment("&", 20))
  {
    assert DecimalValue("20") == 20 by { assert "20"[..1] == "2"; }
    ReadFragment("&", "20", alphabet, 20);
    assert "&" + ":" + "20" == "&:20";
  }

  lemma {:induction false} HashAmpHundred(alphabet: set<char>)
    requires TestAlphabet(alphabet)
    ensures ParseFragment("#&:100", alphabet) == Some(Fragment("#&", 100))
  {
    assert DecimalValue("100") == 100 by { assert "100"[..2] == "10" && "10"[..1] == "1"; }
    assert ':' !in "#&" && FromAlphabet("#&", alphabet);
    ReadFragment("#&", "100", alphabet, 100);
    assert "#&" + ":" + "100" == "#&:100";
  }

  /** Two and three pieces joined, written out. */
  lemma {:induction false} JoinThree(a: string, b: string, c: string, sep: char)
    ensures Join([a, b], sep) == a + [sep] + b
    ensures Join([a, b, c], sep) == a + [sep] + (b + [sep] + c)
  {
    assert [a, b][1..] == [b];
    assert [b, c][1..] == [c] && Join([b, c], sep) == b + [sep] + c;
    assert [a, b, c][1..] == [b, c];
  }

  lemma {:induction false} SimpleJoined(value: string, f1: string, f2: string, f3: string)
    requires value == "#:10,&:20,+:30" && f1 == "#:10" && f2 == "&:20" && f3 == "+:30"
    ensures value == f1 + [','] + (f2 + [','] + f3)
  {
  }

  lemma {:induction false} CombinedJoined(value: string, f1: string, f2: string)
    requires value == "#&:100,+:30" && f1 == "#&:100" && f2 == "+:30"
    ensures value == f1 + [','] + f2
  {
  }

  /** Single-prefix fragments, each applied in turn. */
  lemma {:induction false} ApplySimpleThree(alphabet: set<char>, f1: string, f2: string, f3: string)
    requires ParseFragment(f1, alphabet) == Some(Fragment("#", 10))
    requires ParseFragment(f2, alphabet) == Some(Fragment("&", 20))
    requires ParseFragment(f3, alphabet) == Some(Fragment("+", 30))
    ensures ApplyFragments(map[], [f1, f2, f3], alphabet) == map['#' := 10, '&' := 20, '+' := 30]
  {
    assert [f1, f2, f3] == [] + [f1] + [f2] + [f3];
    ValidIsApplied(map[], [], f1, alphabet, Fragment("#", 10));
    SingleCharLimit(map[], '#', 10);
    ValidIsApplied(map[], [f1], f2, alphabet, Fragment("&", 20));
    SingleCharLimit(map['#' := 10], '&', 20);
    ValidIsApplied(map[], [f1, f2], f3, alphabet, Fragment("+", 30));
    SingleCharLimit(map['#' := 10, '&' := 20], '+', 30);
    assert [] + [f1] == [f1] && [f1] + [f2] == [f1, f2];
  }

  /** "#:10,&:20,+:30": each fragment is applied. */
  lemma {:induction false} MultipleSimple(alphabet: set<char>)
    requires TestAlphabet(alphabet)
    ensures ChanLimits(map[], Some("#:10,&:20,+:30"), alphabet) == map['#' := 10, '&' := 20, '+' := 30]
  {
    var f1, f2, f3 := "#:10", "&:20", "+:30";
    assert ',' !in f1 && ',' !in f2 && ',' !in f3;
    SplitJoin([f1, f2, f3], ',');
    JoinThree(f1, f2, f3, ',');
    SimpleJoined("#:10,&:20,+:30", f1, f2, f3);
    HashTen(alphabet);
    AmpTwenty(alphabet);
    PlusThirty(alphabet);
    ApplySimpleThree(alphabet, f1, f2, f3);
  }

  /** A combined fragment and then a simple one. */
  lemma {:induction false} ApplyCombinedTwo(alphabet: set<char>, f1: string, f2: string)
    requires ParseFragment(f1, alphabet) == Some(Fragment("#&", 100))
    requires ParseFragment(f2, alphabet) == Some(Fragment("+", 30))
    ensures ApplyFragments(map[], [f1, f2], alphabet) == map['#' := 100, '&' := 100, '+' := 30]
  {
    assert [f1, f2] == [] + [f1] + [f2] && [] + [f1] == [f1];
    ValidIsApplied(map[], [], f1, alphabet, Fragment("#&", 100));
    assert "#&"[..1] == "#" && "#"[..0] == [];
    ValidIsApplied(map[], [f1], f2, alphabet, Fragment("+", 30));
    SingleCharLimit(map['#' := 100, '&' := 100], '+', 30);
  }

  /** "#&:100,+:30": a combined fragment followed by a simple one. */
  lemma {:induction false} MultipleCombined(alphabet: set<char>)
    requires TestAlphabet(alphabet)
    ensures ChanLimits(map[], Some("#&:100,+:30"), alphabet) == map['#' := 100, '&' := 100, '+' := 30]
  {
    var f1, f2 := "#&:100", "+:30";
    assert ',' !in f1 && ',' !in f2;
    SplitJoin([f1, f2], ',');
    JoinThree(f1, f2, "", ',');
    CombinedJoined("#&:100,+:30", f1, f2);
    HashAmpHundred(alphabet);
    PlusThirty(alphabet);
    ApplyCombinedTwo(alphabet, f1, f2);
  }
}
