/**
 * The host-specification grammar of psshlib/psshutil.py:
 * `[user@]host[[start:stop]][:port]` tokens, one-line host-file entries, and
 * the numeric range expansion of a single bracketed token.
 */
module HostParse {
  import opened Wrappers
  import opened Text
  import opened Decimal

  /** A `(host, port, user)` triple; `None` is Python's `None`. */
  datatype Host = Host(name: string, port: Option<string>, user: Option<string>)

  /**
   * `user, host = host.split('@', 1)` when the token holds an '@': the text
   * before the first '@' and the text after it; no user otherwise.
   */
  function SplitUser(token: string): (r: (Option<string>, string))
    ensures r.0.None? <==> '@' !in token
    ensures r.0.None? ==> r.1 == token
    ensures r.0.Some? ==> '@' !in r.0.value && token == r.0.value + "@" + r.1
  {
    if '@' in token then
      var i := FirstIndex(token, '@');
      assert token == token[..i] + "@" + token[i + 1..];
      (Some(token[..i]), token[i + 1..])
    else (None, token)
  }

  /**
   * `host, port = host.rsplit(':', 1)` when the text holds a ':': the text
   * before the last ':' and the text after it; no port otherwise.
   */
  function SplitPort(rest: string): (r: (string, Option<string>))
    ensures r.1.None? <==> ':' !in rest
    ensures r.1.None? ==> r.0 == rest
    ensures r.1.Some? ==> ':' !in r.1.value && rest == r.0 + ":" + r.1.value
  {
    if ':' in rest then
      var j := LastIndex(rest, ':');
      assert rest == rest[..j] + ":" + rest[j + 1..];
      (rest[..j], Some(rest[j + 1..]))
    else (rest, None)
  }

  /** The user split off at the first '@' is the only one without an '@'. */
  lemma SplitUserOf(user: string, rest: string)
    requires '@' !in user
    ensures SplitUser(user + "@" + rest) == (Some(user), rest)
  {
    var t := user + "@" + rest;
    assert t == user + ['@'] + rest;
    FirstIndexAfter(user, '@', rest);
    assert t[..|user|] == user && t[|user| + 1..] == rest;
  }

  /** The port split off at the last ':' is the only one without a ':'. */
  lemma SplitPortOf(name: string, port: string)
    requires ':' !in port
    ensures SplitPort(name + ":" + port) == (name, Some(port))
  {
    var t := name + ":" + port;
    assert t == name + [':'] + port;
    LastIndexBefore(name, ':', port);
    assert t[..|name|] == name && t[|name| + 1..] == port;
  }

  /** Writes a token back from its parts: `user@` if a user is given, the host, `:port` if a port is given. */
  function Unparse(name: string, port: Option<string>, user: Option<string>): string {
    var rest := if port.Some? then name + ":" + port.value else name;
    if user.Some? then user.value + "@" + rest else rest
  }

  /**
   * `parse_host`: the user is the text before the first '@', the port the text
   * after the last ':' of what follows; an absent field takes its default.
   */
  function ParseHost(token: string, defaultUser: Option<string>, defaultPort: Option<string>): Host {
    var atUser := SplitUser(token);
    var atPort := SplitPort(atUser.1);
    Host(atPort.0, if atPort.1.Some? then atPort.1 else defaultPort,
         if atUser.0.Some? then atUser.0 else defaultUser)
  }

  /**
   * What `parse_host` finds: the default user exactly when there is no '@',
   * else a user with no '@' in it; the default port exactly when no ':'
   * follows the user, else a port with no ':' in it (present but empty
   * fields are "", not the defaults). It never fails, and the parts it finds
   * put back together give the token.
   */
  lemma ParseHostParts(token: string, defaultUser: Option<string>, defaultPort: Option<string>)
    ensures var h := ParseHost(token, defaultUser, defaultPort);
      && ('@' !in token ==> h.user == defaultUser)
      && ('@' in token ==> h.user.Some? && '@' !in h.user.value)
      && (':' !in SplitUser(token).1 ==> h.port == defaultPort)
      && (':' in SplitUser(token).1 ==> h.port.Some? && ':' !in h.port.value)
      && token == Unparse(h.name, if ':' in SplitUser(token).1 then h.port else None,
                          if '@' in token then h.user else None)
  {
  }

  /**
   * The inverse direction: parsing a token written from a user without '@'
   * and a port without ':' gives those parts back, with defaults for the
   * parts left out.
   */
  lemma UnparseRoundTrip(name: string, port: Option<string>, user: Option<string>,
                         defaultUser: Option<string>, defaultPort: Option<string>)
    requires user.Some? ==> '@' !in user.value
    requires user.None? ==> '@' !in name && (port.Some? ==> '@' !in port.value)
    requires port.Some? ==> ':' !in port.value
    requires port.None? ==> ':' !in name
    ensures ParseHost(Unparse(name, port, user), defaultUser, defaultPort)
         == Host(name, if port.Some? then port else defaultPort, if user.Some? then user else defaultUser)
  {
    var rest := if port.Some? then name + ":" + port.value else name;
    var t := Unparse(name, port, user);
    if user.Some? {
      assert t == user.value + "@" + rest;
      SplitUserOf(user.value, rest);
    } else {
      assert t == rest;
      assert '@' !in t;
      assert SplitUser(t) == (None, rest);
    }
    if port.Some? {
      SplitPortOf(name, port.value);
    } else {
      assert SplitPort(rest) == (name, None);
    }
    ParseHostOfParts(t, user, rest, name, port, defaultUser, defaultPort);
  }

  lemma ParseHostOfParts(t: string, user: Option<string>, rest: string, name: string, port: Option<string>,
                         defaultUser: Option<string>, defaultPort: Option<string>)
    requires SplitUser(t) == (user, rest) && SplitPort(rest) == (name, port)
    ensures ParseHost(t, defaultUser, defaultPort)
         == Host(name, if port.Some? then port else defaultPort, if user.Some? then user else defaultUser)
  {
  }

  /** `parse_host_entry`'s two failures, each reported on stderr with the sentinel `(None, None, None)`. */
  datatype EntryError = TooManyFields | UserGivenTwice

  /**
   * `parse_host_entry`: one host-file line of one or two whitespace fields.
   * The first field goes through `parse_host` (no range expansion); a second
   * field is the user, and conflicts with a `user@` in the first. An empty
   * line raises IndexError in the source (`fields[0]`), hence the requires.
   */
  function ParseHostEntry(line: string, defaultUser: Option<string>, defaultPort: Option<string>)
    : (r: Result<Host, EntryError>)
    requires Split(line) != []
    ensures r == Failure(TooManyFields) <==> |Split(line)| > 2
    ensures r == Failure(UserGivenTwice) <==> |Split(line)| == 2 && '@' in Split(line)[0]
    ensures |Split(line)| == 1 ==> r == Success(ParseHost(Split(line)[0], defaultUser, defaultPort))
    ensures |Split(line)| == 2 && '@' !in Split(line)[0] ==>
      r == Success(ParseHost(Split(line)[0], Some(Split(line)[1]), defaultPort))
  {
    var fields := Split(line);
    if |fields| > 2 then Failure(TooManyFields)
    else
      var h := ParseHost(fields[0], None, defaultPort);
      if |fields| == 2 then
        if h.user.None? then Success(h.(user := Some(fields[1])))
        else Failure(UserGivenTwice)
      else if h.user.None? then Success(h.(user := defaultUser))
      else Success(h)
  }

  /**
   * A host-file line is not range-expanded: a token `p[l:r]s` with no '@'
   * and no ':' in `s` splits at the range's own ':', so the brackets stay
   * in the host and the port.
   */
  lemma EntryKeepsBrackets(line: string, prefix: string, left: string, right: string, suffix: string,
                           defaultUser: Option<string>, defaultPort: Option<string>)
    requires Split(line) == [prefix + "[" + left + ":" + right + "]" + suffix]
    requires '@' !in Split(line)[0]
    requires ':' !in right && ':' !in suffix
    ensures ParseHostEntry(line, defaultUser, defaultPort)
         == Success(Host(prefix + "[" + left, Some(right + "]" + suffix), defaultUser))
  {
    var t := Split(line)[0];
    assert t == Unparse(prefix + "[" + left, Some(right + "]" + suffix), None);
    UnparseRoundTrip(prefix + "[" + left, Some(right + "]" + suffix), None, defaultUser, defaultPort);
  }

  // HOST_PATTERN = r'(.*)\[(.+)\](.*)', searched in one token.

  /** HOST_PATTERN can put its `\[` at `p` and its `\]` at `q`, with at least one character between. */
  predicate Candidate(t: string, p: int, q: int) {
    0 <= p && p + 2 <= q < |t| && t[p] == '[' && t[q] == ']'
  }

  /** The three groups of a HOST_PATTERN match. */
  datatype Bracketed = Bracketed(prefix: string, range: string, suffix: string)

  /**
   * `re.search(HOST_PATTERN, t)` on a token (tokens hold no line break, so
   * `.` matches every character and the match starts at 0). The greedy first
   * group takes the last '[' that has a ']' two or more places later, the
   * greedy second group runs to the last ']'.
   */
  function MatchRange(t: string): Option<Bracketed> {
    if ']' !in t then None else MatchClose(t, LastIndex(t, ']'))
  }

  /** The match once its `\]` is placed at `q`: the last '[' two or more places before it. */
  function MatchClose(t: string, q: nat): Option<Bracketed>
    requires q < |t|
  {
    if q < 2 || '[' !in t[..q - 1] then None
    else
      var p := LastIndex(t[..q - 1], '[');
      Some(Bracketed(t[..p], t[p + 1..q], t[q + 1..]))
  }

  /** No ']' after the last one. */
  lemma LastCloseIsLast(t: string)
    requires ']' in t
    ensures forall q' :: LastIndex(t, ']') < q' < |t| ==> t[q'] != ']'
  {
    var q := LastIndex(t, ']');
    assert forall q' :: q < q' < |t| ==> t[q'] == t[q + 1..][q' - q - 1];
  }

  /** There is no match exactly when the brackets have no place to sit. */
  lemma NoMatchNoCandidate(t: string)
    requires MatchRange(t).None?
    ensures forall p, q :: !Candidate(t, p, q)
  {
    if ']' in t {
      var q := LastIndex(t, ']');
      LastCloseIsLast(t);
      if q >= 2 {
        assert forall p' :: 0 <= p' < q - 1 ==> t[p'] == t[..q - 1][p'];
      }
    }
  }

  /** A match is a place for the brackets, and its groups put the token back together. */
  lemma MatchIsCandidate(t: string)
    requires MatchRange(t).Some?
    ensures var m := MatchRange(t).value;
      Candidate(t, |m.prefix|, |m.prefix| + 1 + |m.range|)
      && m.prefix + "[" + m.range + "]" + m.suffix == t
  {
    var q := LastIndex(t, ']');
    var p := LastIndex(t[..q - 1], '[');
    assert t[p] == t[..q - 1][p];
    assert MatchRange(t).value == Bracketed(t[..p], t[p + 1..q], t[q + 1..]);
    CutAround(t, p, q);
  }

  /** Of all places the brackets can sit, the match is the greatest: last ']' first, then last '['. */
  lemma MatchIsGreatest(t: string)
    requires MatchRange(t).Some?
    ensures var m := MatchRange(t).value;
      forall p', q' :: Candidate(t, p', q') ==>
        p' < |m.prefix| || (p' == |m.prefix| && q' <= |m.prefix| + 1 + |m.range|)
  {
    var q := LastIndex(t, ']');
    var p := LastIndex(t[..q - 1], '[');
    LastCloseIsLast(t);
    assert forall p' :: p < p' < q - 1 ==> t[p'] == t[..q - 1][p + 1..][p' - p - 1];
  }

  /**
   * The converse: a token written `prefix[range]suffix` whose range holds no
   * '[' before its last character and whose suffix holds no ']' matches with
   * exactly these groups.
   */
  lemma MatchOf(prefix: string, range: string, suffix: string)
    requires range != [] && '[' !in range[..|range| - 1] && ']' !in suffix
    ensures MatchRange(prefix + "[" + range + "]" + suffix) == Some(Bracketed(prefix, range, suffix))
  {
    var t := prefix + "[" + range + "]" + suffix;
    BracketsOf(prefix, range, suffix);
    GroupsOf(prefix, range, suffix);
    MatchAt(t, |prefix|, |prefix| + 1 + |range|);
  }

  /** Where the last ']' and the last '[' before it sit in `prefix[range]suffix`. */
  lemma BracketsOf(prefix: string, range: string, suffix: string)
    requires range != [] && '[' !in range[..|range| - 1] && ']' !in suffix
    ensures var t := prefix + "[" + range + "]" + suffix;
      var q := |prefix| + 1 + |range|;
      && ']' in t && LastIndex(t, ']') == q && q >= 2
      && '[' in t[..q - 1] && LastIndex(t[..q - 1], '[') == |prefix|
  {
    var t := prefix + "[" + range + "]" + suffix;
    var head := prefix + "[" + range;
    assert t == head + [']'] + suffix;
    LastIndexBefore(head, ']', suffix);
    var q := |head|;
    var inner := range[..|range| - 1];
    assert t[..q - 1] == prefix + ['['] + inner;
    LastIndexBefore(prefix, '[', inner);
  }

  /** The three groups of `prefix[range]suffix`, cut at its brackets. */
  lemma GroupsOf(prefix: string, range: string, suffix: string)
    ensures var t := prefix + "[" + range + "]" + suffix;
      var p, q := |prefix|, |prefix| + 1 + |range|;
      t[..p] == prefix && t[p + 1..q] == range && t[q + 1..] == suffix
  {
    var t := prefix + "[" + range + "]" + suffix;
    SliceParts(prefix + "[", range, "]" + suffix);
    assert t == (prefix + "[") + range + ("]" + suffix);
    SliceParts(prefix, "[", range + "]" + suffix);
    assert t == prefix + "[" + (range + "]" + suffix);
  }

  /** The match once its last ']' and the last '[' two or more places before it are known. */
  lemma MatchAt(t: string, p: nat, q: nat)
    requires ']' in t && LastIndex(t, ']') == q && q >= 2
    requires '[' in t[..q - 1] && LastIndex(t[..q - 1], '[') == p
    ensures MatchRange(t) == Some(Bracketed(t[..p], t[p + 1..q], t[q + 1..]))
  {
  }

  // Range expansion of one bracketed token (the first loop of parse_host_string).

  /** Why `parse_host_string` gives up on the whole string. */
  datatype RangeError =
    | InvalidRange      // start >= stop: reported on stderr, sentinel returned
    | AmbiguousPadding  // zero-padded endpoints of different lengths: likewise
    | NotOneColon       // `left, right = range_idx.split(':')` raises ValueError
    | NotAnInteger      // `int(left)` or `int(right)` raises ValueError

  function Max(a: nat, b: nat): nat {
    if a >= b then a else b
  }

  /** The zero-padding width: the longer endpoint's length if either endpoint starts with '0', else 0. */
  function PadWidth(left: string, right: string): nat {
    if (left != [] && left[0] == '0') || (right != [] && right[0] == '0') then Max(|left|, |right|) else 0
  }

  /** The text an index is written as: `str(n)` zero-filled to `width`; a width of 0 (padding off) leaves it as is. */
  function IndexText(n: nat, width: nat): string {
    ZeroFill(ToDecimal(n), width)
  }

  /** The `count` tokens of a range from index `a` on: the i-th is the prefix, the text of index a + i, the suffix. */
  function RangeTokens(prefix: string, a: nat, count: nat, width: nat, suffix: string): seq<string> {
    seq(count, i requires 0 <= i < count => prefix + IndexText(a + i, width) + suffix)
  }

  /** Every token through `parse_host`, one host per token, in order. */
  function ParseAll(tokens: seq<string>, defaultUser: Option<string>, defaultPort: Option<string>): seq<Host> {
    seq(|tokens|, i requires 0 <= i < |tokens| => ParseHost(tokens[i], defaultUser, defaultPort))
  }

  /**
   * What one token contributes to the first pass of `parse_host_string`:
   * nothing if it has no bracket (the second pass takes it); the error of the
   * unpacking if its range does not hold exactly one ':'; otherwise what its
   * two sides give.
   */
  function ExpandToken(t: string, defaultUser: Option<string>, defaultPort: Option<string>)
    : Result<seq<Host>, RangeError>
  {
    match MatchRange(t)
    case None => Success([])
    case Some(m) =>
      var sides := SplitPair(m.range, ':');
      if sides.None? then Failure(NotOneColon)
      else ExpandSides(m.prefix, sides.value.0, sides.value.1, m.suffix, defaultUser, defaultPort)
  }

  /**
   * The range `[left:right]` between `prefix` and `suffix`: nothing if a side
   * is empty; an error if a side is not a number, if start >= stop, or if
   * padding is on and the sides differ in length; otherwise one host per
   * index from start to stop.
   */
  function ExpandSides(prefix: string, left: string, right: string, suffix: string,
                       defaultUser: Option<string>, defaultPort: Option<string>)
    : Result<seq<Host>, RangeError>
  {
    if left == [] || right == [] then Success([])
    else if !IsDecimal(left) || !IsDecimal(right) then Failure(NotAnInteger)
    else
      var a, b := Value(left), Value(right);
      var width := PadWidth(left, right);
      if a >= b then Failure(InvalidRange)
      else if |right| - |left| != 0 && width > 0 then Failure(AmbiguousPadding)
      else Success(ParseAll(RangeTokens(prefix, a, b - a + 1, width, suffix), defaultUser, defaultPort))
  }

  /** A token `prefix[left:right]suffix` matches with exactly these groups, and its range splits into `left` and `right`. */
  lemma BracketedParts(prefix: string, left: string, right: string, suffix: string)
    requires '[' !in left && '[' !in right && ':' !in left && ':' !in right && ']' !in suffix
    ensures MatchRange(prefix + "[" + left + ":" + right + "]" + suffix)
         == Some(Bracketed(prefix, left + ":" + right, suffix))
    ensures SplitPair(left + ":" + right, ':') == Some((left, right))
  {
    var range := left + ":" + right;
    if right != [] {
      assert range[..|range| - 1] == left + ":" + right[..|right| - 1];
      assert forall i :: 0 <= i < |right| - 1 ==> right[..|right| - 1][i] == right[i];
    } else {
      assert range[..|range| - 1] == left;
    }
    assert '[' !in range[..|range| - 1];
    assert prefix + "[" + left + ":" + right + "]" + suffix == prefix + "[" + range + "]" + suffix;
    MatchOf(prefix, range, suffix);
    assert range == left + [':'] + right;
    FirstIndexAfter(left, ':', right);
    assert range[..|left|] == left && range[|left| + 1..] == right;
  }

  /**
   * A token written `prefix[left:right]suffix`, with no '[' or ':' inside
   * the sides and no ']' in the suffix, expands exactly as its two sides say.
   */
  lemma ExpandBracketed(prefix: string, left: string, right: string, suffix: string,
                        defaultUser: Option<string>, defaultPort: Option<string>)
    requires '[' !in left && '[' !in right && ':' !in left && ':' !in right && ']' !in suffix
    ensures ExpandToken(prefix + "[" + left + ":" + right + "]" + suffix, defaultUser, defaultPort)
         == ExpandSides(prefix, left, right, suffix, defaultUser, defaultPort)
  {
    BracketedParts(prefix, left, right, suffix);
  }

  /**
   * The failures of a range: a side that is not a number, start >= stop,
   * or padding on with sides of different lengths. A range with an empty
   * side is dropped without error.
   */
  lemma ExpandSidesErrors(prefix: string, left: string, right: string, suffix: string,
                          defaultUser: Option<string>, defaultPort: Option<string>)
    ensures var r := ExpandSides(prefix, left, right, suffix, defaultUser, defaultPort);
      && (left == [] || right == [] ==> r == Success([]))
      && (left != [] && right != [] && !(IsDecimal(left) && IsDecimal(right)) ==> r == Failure(NotAnInteger))
      && (IsDecimal(left) && IsDecimal(right) && Value(left) >= Value(right) ==> r == Failure(InvalidRange))
      && ((IsDecimal(left) && IsDecimal(right) && Value(left) < Value(right)
           && |left| != |right| && PadWidth(left, right) > 0) ==> r == Failure(AmbiguousPadding))
  {
  }

  /**
   * A valid range `[a:b]` gives the hosts of the b - a + 1 tokens from index a
   * on, in order.
   */
  lemma ExpandSidesHosts(prefix: string, left: string, right: string, suffix: string,
                         defaultUser: Option<string>, defaultPort: Option<string>)
    requires IsDecimal(left) && IsDecimal(right) && Value(left) < Value(right)
    requires |left| == |right| || PadWidth(left, right) == 0
    ensures ExpandSides(prefix, left, right, suffix, defaultUser, defaultPort)
         == Success(ParseAll(RangeTokens(prefix, Value(left), Value(right) - Value(left) + 1, PadWidth(left, right), suffix),
                             defaultUser, defaultPort))
  {
  }

  lemma {:induction false} NonZeroLeadValue(s: string)
    requires IsDecimal(s) && s[0] != '0'
    ensures Value(s) > 0
  {
    if |s| > 1 {
      var p := s[..|s| - 1];
      assert p[0] == s[0];
      NonZeroLeadValue(p);
    }
  }

  /**
   * The index text of every n in [start, stop] denotes n, so the expansion is
   * in ascending numeric order. With padding on (both sides the same length)
   * every index is exactly that wide; with padding off it is plain decimal
   * with no leading zero.
   */
  lemma RangeIndices(left: string, right: string, n: nat)
    requires IsDecimal(left) && IsDecimal(right) && Value(left) <= n <= Value(right)
    requires PadWidth(left, right) > 0 ==> |left| == |right|
    ensures var w := PadWidth(left, right);
      var idx := IndexText(n, w);
      && AllDigits(idx) && Value(idx) == n
      && (w > 0 ==> |idx| == w)
      && (w == 0 ==> idx == ToDecimal(n) && idx[0] != '0')
  {
    var w := PadWidth(left, right);
    ToDecimalValue(n);
    if w > 0 {
      ToDecimalLengthMonotone(n, Value(right));
      ToDecimalNoLonger(right);
      ZeroFillValue(ToDecimal(n), w);
    } else {
      NonZeroLeadValue(left);
    }
  }

  /** The hosts of a range, one by one. */
  lemma RangeHostsAt(prefix: string, a: nat, count: nat, width: nat, suffix: string,
                     defaultUser: Option<string>, defaultPort: Option<string>)
    ensures var hosts := ParseAll(RangeTokens(prefix, a, count, width, suffix), defaultUser, defaultPort);
      && |hosts| == count
      && forall i :: 0 <= i < count ==> hosts[i] == ParseHost(prefix + IndexText(a + i, width) + suffix, defaultUser, defaultPort)
  {
    var tokens := RangeTokens(prefix, a, count, width, suffix);
    var hosts := ParseAll(tokens, defaultUser, defaultPort);
    forall i | 0 <= i < count
      ensures hosts[i] == ParseHost(prefix + IndexText(a + i, width) + suffix, defaultUser, defaultPort)
    {
      assert tokens[i] == prefix + IndexText(a + i, width) + suffix;
    }
  }

  /**
   * The whole promise for one range token `prefix[left:right]suffix` with a
   * valid range [a:b]: it expands to the hosts `parse_host` makes of the
   * b - a + 1 range tokens (host i of them is spelled out by `RangeHostsAt`),
   * and the text of every index n in [a, b] denotes n, is exactly the padding
   * width when padding is on, and is plain decimal with no leading zero
   * otherwise.
   */
  lemma ExpandRangeToken(prefix: string, left: string, right: string, suffix: string,
                         defaultUser: Option<string>, defaultPort: Option<string>)
    requires ']' !in suffix
    requires IsDecimal(left) && IsDecimal(right) && Value(left) < Value(right)
    requires |left| == |right| || PadWidth(left, right) == 0
    ensures ExpandToken(prefix + "[" + left + ":" + right + "]" + suffix, defaultUser, defaultPort)
         == Success(ParseAll(RangeTokens(prefix, Value(left), Value(right) - Value(left) + 1, PadWidth(left, right), suffix),
                             defaultUser, defaultPort))
    ensures var w := PadWidth(left, right);
      forall n :: Value(left) <= n <= Value(right) ==>
        && AllDigits(IndexText(n, w)) && Value(IndexText(n, w)) == n
        && (w > 0 ==> |IndexText(n, w)| == w)
        && (w == 0 ==> IndexText(n, w) == ToDecimal(n) && IndexText(n, w)[0] != '0')
  {
    assert '[' !in left && ':' !in left by {
      assert forall k :: 0 <= k < |left| ==> IsDigit(left[k]);
    }
    assert '[' !in right && ':' !in right by {
      assert forall k :: 0 <= k < |right| ==> IsDigit(right[k]);
    }
    ExpandBracketed(prefix, left, right, suffix, defaultUser, defaultPort);
    ExpandSidesHosts(prefix, left, right, suffix, defaultUser, defaultPort);
    RangeIndicesAll(left, right);
  }

  /** The index-text part of `ExpandRangeToken`: `RangeIndices` for every index of the range. */
  lemma RangeIndicesAll(left: string, right: string)
    requires IsDecimal(left) && IsDecimal(right)
    requires PadWidth(left, right) > 0 ==> |left| == |right|
    ensures var w := PadWidth(left, right);
      forall n :: Value(left) <= n <= Value(right) ==>
        && AllDigits(IndexText(n, w)) && Value(IndexText(n, w)) == n
        && (w > 0 ==> |IndexText(n, w)| == w)
        && (w == 0 ==> IndexText(n, w) == ToDecimal(n) && IndexText(n, w)[0] != '0')
  {
    forall n | Value(left) <= n <= Value(right)
      ensures var w := PadWidth(left, right);
        && AllDigits(IndexText(n, w)) && Value(IndexText(n, w)) == n
        && (w > 0 ==> |IndexText(n, w)| == w)
        && (w == 0 ==> IndexText(n, w) == ToDecimal(n) && IndexText(n, w)[0] != '0')
    {
      RangeIndices(left, right, n);
    }
  }
}
