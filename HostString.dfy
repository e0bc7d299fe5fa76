/**
 * `parse_host_string` (psshlib/psshutil.py): a whitespace-separated string
 * of host tokens. A first pass expands every bracketed token over its index
 * range; a second pass parses every bracket-free token. The first range
 * error ends the whole call.
 */
module HostString {
  import opened Wrappers
  import opened Text
  import opened Decimal
  import opened HostParse

  /** The first pass over the tokens, left to right: the expansions, or the first error. */
  function ExpandAll(tokens: seq<string>, defaultUser: Option<string>, defaultPort: Option<string>)
    : Result<seq<Host>, RangeError>
    decreases |tokens|
  {
    if tokens == [] then Success([])
    else
      var done := ExpandAll(tokens[..|tokens| - 1], defaultUser, defaultPort);
      if done.Failure? then done
      else
        var last := ExpandToken(tokens[|tokens| - 1], defaultUser, defaultPort);
        if last.Failure? then Failure(last.error) else Success(done.value + last.value)
  }

  /** The second pass: the bracket-free tokens, each through `parse_host`, left to right. */
  function PlainHosts(tokens: seq<string>, defaultUser: Option<string>, defaultPort: Option<string>)
    : seq<Host>
    decreases |tokens|
  {
    if tokens == [] then []
    else
      var last := tokens[|tokens| - 1];
      PlainHosts(tokens[..|tokens| - 1], defaultUser, defaultPort)
      + (if MatchRange(last).None? then [ParseHost(last, defaultUser, defaultPort)] else [])
  }

  /** What `parse_host_string` returns: both passes, or the first pass's error for the whole string. */
  function HostStringSpec(hostString: string, defaultUser: Option<string>, defaultPort: Option<string>)
    : Result<seq<Host>, RangeError>
  {
    var tokens := Split(hostString);
    var expanded := ExpandAll(tokens, defaultUser, defaultPort);
    if expanded.Failure? then Failure(expanded.error)
    else Success(expanded.value + PlainHosts(tokens, defaultUser, defaultPort))
  }

  /** The first pass over one more token. */
  lemma ExpandAllNext(tokens: seq<string>, k: nat, defaultUser: Option<string>, defaultPort: Option<string>)
    requires k < |tokens|
    ensures var done := ExpandAll(tokens[..k], defaultUser, defaultPort);
      var next := ExpandToken(tokens[k], defaultUser, defaultPort);
      ExpandAll(tokens[..k + 1], defaultUser, defaultPort)
      == if done.Failure? then done else if next.Failure? then Failure(next.error) else Success(done.value + next.value)
  {
    assert tokens[..k + 1][..k] == tokens[..k];
  }

  /** A range one index longer has the token of that index at its end. */
  lemma RangeTokensSnoc(prefix: string, a: nat, count: nat, n: nat, width: nat, suffix: string)
    requires n == a + count
    ensures RangeTokens(prefix, a, count + 1, width, suffix)
         == RangeTokens(prefix, a, count, width, suffix) + [prefix + IndexText(n, width) + suffix]
  {
    var ts := RangeTokens(prefix, a, count, width, suffix);
    var longer := RangeTokens(prefix, a, count + 1, width, suffix);
    assert forall i :: 0 <= i < count ==> longer[i] == ts[i];
  }

  /** One more token, one more host at the end. */
  lemma ParseAllSnoc(tokens: seq<string>, t: string, defaultUser: Option<string>, defaultPort: Option<string>)
    ensures ParseAll(tokens + [t], defaultUser, defaultPort)
         == ParseAll(tokens, defaultUser, defaultPort) + [ParseHost(t, defaultUser, defaultPort)]
  {
    var longer := tokens + [t];
    assert forall i :: 0 <= i < |tokens| ==> longer[i] == tokens[i];
  }

  /** A range one index longer has the host of that index at its end. */
  lemma RangeSnoc(prefix: string, a: nat, count: nat, n: nat, width: nat, suffix: string,
                  defaultUser: Option<string>, defaultPort: Option<string>)
    requires n == a + count
    ensures ParseAll(RangeTokens(prefix, a, count + 1, width, suffix), defaultUser, defaultPort)
         == ParseAll(RangeTokens(prefix, a, count, width, suffix), defaultUser, defaultPort)
            + [ParseHost(prefix + IndexText(n, width) + suffix, defaultUser, defaultPort)]
  {
    RangeTokensSnoc(prefix, a, count, n, width, suffix);
    ParseAllSnoc(RangeTokens(prefix, a, count, width, suffix), prefix + IndexText(n, width) + suffix, defaultUser, defaultPort);
  }

  /** An error in the first `k` tokens is the error of the whole first pass. */
  lemma {:induction false} ExpandAllStops(tokens: seq<string>, k: nat,
                                          defaultUser: Option<string>, defaultPort: Option<string>)
    requires k <= |tokens|
    requires ExpandAll(tokens[..k], defaultUser, defaultPort).Failure?
    ensures ExpandAll(tokens, defaultUser, defaultPort) == ExpandAll(tokens[..k], defaultUser, defaultPort)
    decreases |tokens| - k
  {
    if k < |tokens| {
      var init := tokens[..|tokens| - 1];
      assert init[..k] == tokens[..k];
      ExpandAllStops(init, k, defaultUser, defaultPort);
    } else {
      assert tokens[..k] == tokens;
    }
  }

  /**
   * The index text of one host in a range: `str(left_int)`, zero-filled to
   * `width` when padding is on and `len(str(left_int)) <= len(str(right_int))`,
   * a guard that always holds inside the range.
   */
  method IndexDigits(leftInt: nat, rightInt: nat, width: nat) returns (hostIdx: string)
    requires leftInt <= rightInt
    ensures hostIdx == IndexText(leftInt, width)
  {
    hostIdx := ToDecimal(leftInt);
    if width != 0 && |ToDecimal(leftInt)| <= |ToDecimal(rightInt)| {
      var current := ToDecimal(leftInt);
      hostIdx := ZeroFill(current, |current| + (width - |current|));
    }
    ToDecimalLengthMonotone(leftInt, rightInt);
  }

  /**
   * One turn of the `while` loop of `parse_host_string`: append the host of
   * index `n`, its index text from `IndexDigits`.
   */
  method AppendIndex(hosts: seq<Host>, extended: seq<Host>, prefix: string, start: nat, n: nat, stop: nat,
                     width: nat, suffix: string, defaultUser: Option<string>, defaultPort: Option<string>)
    returns (next: seq<Host>)
    requires start <= n <= stop
    requires extended == hosts + ParseAll(RangeTokens(prefix, start, n - start, width, suffix), defaultUser, defaultPort)
    ensures next == hosts + ParseAll(RangeTokens(prefix, start, n + 1 - start, width, suffix), defaultUser, defaultPort)
  {
    var hostIdx := IndexDigits(n, stop, width);
    RangeSnoc(prefix, start, n - start, n, width, suffix, defaultUser, defaultPort);
    next := extended + [ParseHost(prefix + hostIdx + suffix, defaultUser, defaultPort)];
  }

  /**
   * The `while` loop of `parse_host_string`: appends one host per index from
   * `start` to `stop`, the index zero-filled to `width` when padding is on
   * (its guard `len(str(left_int)) <= len(str(right_int))` always holds).
   */
  method AppendRange(hosts: seq<Host>, prefix: string, start: nat, stop: nat, width: nat, suffix: string,
                     defaultUser: Option<string>, defaultPort: Option<string>)
    returns (extended: seq<Host>)
    requires start <= stop
    ensures extended == hosts + ParseAll(RangeTokens(prefix, start, stop + 1 - start, width, suffix), defaultUser, defaultPort)
  {
    extended := hosts;
    var leftInt := start;
    while leftInt <= stop
      invariant start <= leftInt <= stop + 1
      invariant extended == hosts + ParseAll(RangeTokens(prefix, start, leftInt - start, width, suffix), defaultUser, defaultPort)
    {
      extended := AppendIndex(hosts, extended, prefix, start, leftInt, stop, width, suffix, defaultUser, defaultPort);
      leftInt := leftInt + 1;
    }
  }

  /** One more token in the first pass, when it expands without error. */
  lemma ExpandAllStep(tokens: seq<string>, k: nat, hosts: seq<Host>, defaultUser: Option<string>, defaultPort: Option<string>)
    requires k < |tokens|
    requires ExpandAll(tokens[..k], defaultUser, defaultPort) == Success(hosts)
    requires ExpandToken(tokens[k], defaultUser, defaultPort).Success?
    ensures ExpandAll(tokens[..k + 1], defaultUser, defaultPort)
         == Success(hosts + ExpandToken(tokens[k], defaultUser, defaultPort).value)
  {
    ExpandAllNext(tokens, k, defaultUser, defaultPort);
  }

  /** One more token in the second pass. */
  lemma PlainHostsStep(tokens: seq<string>, k: nat, hosts: seq<Host>, expanded: seq<Host>,
                       defaultUser: Option<string>, defaultPort: Option<string>)
    requires k < |tokens|
    requires hosts == expanded + PlainHosts(tokens[..k], defaultUser, defaultPort)
    ensures (if MatchRange(tokens[k]).None? then hosts + [ParseHost(tokens[k], defaultUser, defaultPort)] else hosts)
         == expanded + PlainHosts(tokens[..k + 1], defaultUser, defaultPort)
  {
    assert tokens[..k + 1][..k] == tokens[..k];
    assert tokens[..k + 1][k] == tokens[k];
  }

  /** A range error among the first `k` tokens is the result of the whole call. */
  lemma StopsHostString(hostString: string, k: nat, defaultUser: Option<string>, defaultPort: Option<string>)
    requires k <= |Split(hostString)|
    requires ExpandAll(Split(hostString)[..k], defaultUser, defaultPort).Failure?
    ensures HostStringSpec(hostString, defaultUser, defaultPort)
         == Failure(ExpandAll(Split(hostString)[..k], defaultUser, defaultPort).error)
  {
    ExpandAllStops(Split(hostString), k, defaultUser, defaultPort);
  }

  /** A range error in token `k`, after `k` tokens expanded without one, is the result of the whole call. */
  lemma TokenStops(hostString: string, k: nat, hosts: seq<Host>, defaultUser: Option<string>, defaultPort: Option<string>)
    requires k < |Split(hostString)|
    requires ExpandAll(Split(hostString)[..k], defaultUser, defaultPort) == Success(hosts)
    requires ExpandToken(Split(hostString)[k], defaultUser, defaultPort).Failure?
    ensures HostStringSpec(hostString, defaultUser, defaultPort)
         == Failure(ExpandToken(Split(hostString)[k], defaultUser, defaultPort).error)
  {
    ExpandAllNext(Split(hostString), k, defaultUser, defaultPort);
    StopsHostString(hostString, k + 1, defaultUser, defaultPort);
  }

  /**
   * The body of the first `for` loop of `parse_host_string`: match one token
   * against the range pattern and, for a range, append its hosts to `hosts`;
   * a range error is returned instead.
   */
  method ExpandEntry(hosts: seq<Host>, indexEntry: string, defaultUser: Option<string>, defaultPort: Option<string>)
    returns (r: Result<seq<Host>, RangeError>)
    ensures var e := ExpandToken(indexEntry, defaultUser, defaultPort);
      r == if e.Failure? then Failure(e.error) else Success(hosts + e.value)
  {
    var isMatch := MatchRange(indexEntry);
    if isMatch.None? {
      assert hosts + [] == hosts;
      return Success(hosts);
    }
    var prefix, rangeIdx, suffix := isMatch.value.prefix, isMatch.value.range, isMatch.value.suffix;
    var sides := SplitPair(rangeIdx, ':');
    if sides.None? {
      return Failure(NotOneColon);
    }
    var left, right := sides.value.0, sides.value.1;
    assert ExpandToken(indexEntry, defaultUser, defaultPort)
        == ExpandSides(prefix, left, right, suffix, defaultUser, defaultPort);
    r := ExpandRange(hosts, prefix, left, right, suffix, defaultUser, defaultPort);
  }

  /**
   * The rest of that body, once the range is split at its colon into `left`
   * and `right`: check both sides and the padding, then run the index loop.
   */
  method ExpandRange(hosts: seq<Host>, prefix: string, left: string, right: string, suffix: string,
                     defaultUser: Option<string>, defaultPort: Option<string>)
    returns (r: Result<seq<Host>, RangeError>)
    ensures var e := ExpandSides(prefix, left, right, suffix, defaultUser, defaultPort);
      r == if e.Failure? then Failure(e.error) else Success(hosts + e.value)
  {
    ExpandSidesErrors(prefix, left, right, suffix, defaultUser, defaultPort);
    if left == [] || right == [] {
      assert hosts + [] == hosts;
      return Success(hosts);
    }
    if !IsDecimal(left) || !IsDecimal(right) {
      return Failure(NotAnInteger);
    }
    var leftInt := Value(left);
    var rightInt := Value(right);
    var width := 0;
    if left[0] == '0' || right[0] == '0' {
      width := Max(|left|, |right|);
    }
    assert width == PadWidth(left, right);
    if leftInt >= rightInt {
      return Failure(InvalidRange);
    } else if |right| - |left| != 0 && width > 0 {
      return Failure(AmbiguousPadding);
    }
    ExpandSidesHosts(prefix, left, right, suffix, defaultUser, defaultPort);
    ghost var range := ParseAll(RangeTokens(prefix, leftInt, rightInt - leftInt + 1, width, suffix), defaultUser, defaultPort);
    assert ExpandSides(prefix, left, right, suffix, defaultUser, defaultPort) == Success(range);
    var extended := AppendRange(hosts, prefix, leftInt, rightInt, width, suffix, defaultUser, defaultPort);
    assert extended == hosts + range;
    return Success(extended);
  }

  /**
   * `parse_host_string` as the source runs it: two `for` loops appending to
   * `hosts` (the second is `AppendPlain`), with a `while` loop over the index
   * range inside the first; a range error returns at once, dropping what was
   * collected.
   */
  method ParseHostString(hostString: string, defaultUser: Option<string>, defaultPort: Option<string>)
    returns (r: Result<seq<Host>, RangeError>)
    ensures r == HostStringSpec(hostString, defaultUser, defaultPort)
  {
    var hosts: seq<Host> := [];
    var entries := Split(hostString);

    for k := 0 to |entries|
      invariant ExpandAll(entries[..k], defaultUser, defaultPort) == Success(hosts)
    {
      var step := ExpandEntry(hosts, entries[k], defaultUser, defaultPort);
      if step.Failure? {
        TokenStops(hostString, k, hosts, defaultUser, defaultPort);
        return Failure(step.error);
      }
      ExpandAllStep(entries, k, hosts, defaultUser, defaultPort);
      hosts := step.value;
    }

    assert entries[..|entries|] == entries;
    hosts := AppendPlain(hosts, entries, defaultUser, defaultPort);
    r := Success(hosts);
  }

  /** The second `for` loop of `parse_host_string`: every token without a range pattern through `parse_host`. */
  method AppendPlain(hosts: seq<Host>, entries: seq<string>, defaultUser: Option<string>, defaultPort: Option<string>)
    returns (extended: seq<Host>)
    ensures extended == hosts + PlainHosts(entries, defaultUser, defaultPort)
  {
    extended := hosts;
    for k := 0 to |entries|
      invariant extended == hosts + PlainHosts(entries[..k], defaultUser, defaultPort)
    {
      PlainHostsStep(entries, k, extended, hosts, defaultUser, defaultPort);
      var entry := entries[k];
      var isMatch := MatchRange(entry);
      if isMatch.None? {
        extended := extended + [ParseHost(entry, defaultUser, defaultPort)];
      }
    }
    assert entries[..|entries|] == entries;
  }

  // Properties of the whole call.

  /** The first pass fails exactly when some token's expansion fails. */
  lemma {:induction false} ExpandAllFailsIff(tokens: seq<string>, defaultUser: Option<string>, defaultPort: Option<string>)
    ensures ExpandAll(tokens, defaultUser, defaultPort).Failure?
        <==> exists k :: 0 <= k < |tokens| && ExpandToken(tokens[k], defaultUser, defaultPort).Failure?
    decreases |tokens|
  {
    if tokens != [] {
      var init := tokens[..|tokens| - 1];
      var last := tokens[|tokens| - 1];
      ExpandAllFailsIff(init, defaultUser, defaultPort);
      ExpandAllLast(tokens, defaultUser, defaultPort);
      if ExpandAll(init, defaultUser, defaultPort).Failure? {
        var k :| 0 <= k < |init| && ExpandToken(init[k], defaultUser, defaultPort).Failure?;
        assert tokens[k] == init[k];
      } else if ExpandToken(last, defaultUser, defaultPort).Failure? {
        assert ExpandToken(tokens[|tokens| - 1], defaultUser, defaultPort).Failure?;
      } else {
        forall k | 0 <= k < |tokens|
          ensures !ExpandToken(tokens[k], defaultUser, defaultPort).Failure?
        {
          if k < |init| {
            assert tokens[k] == init[k];
            assert !ExpandToken(init[k], defaultUser, defaultPort).Failure?;
          } else {
            assert tokens[k] == last;
          }
        }
      }
    }
  }

  /** The first pass fails when it failed before the last token or fails on it. */
  lemma ExpandAllLast(tokens: seq<string>, defaultUser: Option<string>, defaultPort: Option<string>)
    requires tokens != []
    ensures ExpandAll(tokens, defaultUser, defaultPort).Failure?
        <==> ExpandAll(tokens[..|tokens| - 1], defaultUser, defaultPort).Failure?
             || ExpandToken(tokens[|tokens| - 1], defaultUser, defaultPort).Failure?
  {
  }

  /**
   * The first token whose expansion fails decides the error, whatever the
   * tokens after it hold.
   */
  lemma FirstErrorWins(tokens: seq<string>, k: nat, defaultUser: Option<string>, defaultPort: Option<string>)
    requires k < |tokens|
    requires forall j :: 0 <= j < k ==> ExpandToken(tokens[j], defaultUser, defaultPort).Success?
    requires ExpandToken(tokens[k], defaultUser, defaultPort).Failure?
    ensures ExpandAll(tokens, defaultUser, defaultPort) == Failure(ExpandToken(tokens[k], defaultUser, defaultPort).error)
  {
    ExpandAllFailsIff(tokens[..k], defaultUser, defaultPort);
    ExpandAllNext(tokens, k, defaultUser, defaultPort);
    ExpandAllStops(tokens, k + 1, defaultUser, defaultPort);
  }

  /**
   * A range error anywhere makes the whole call fail, dropping every host
   * found before it; the error is that of the first failing token.
   */
  lemma HostStringErrors(hostString: string, defaultUser: Option<string>, defaultPort: Option<string>)
    ensures var tokens := Split(hostString);
      HostStringSpec(hostString, defaultUser, defaultPort).Failure?
      <==> exists k :: 0 <= k < |tokens| && ExpandToken(tokens[k], defaultUser, defaultPort).Failure?
    ensures var tokens := Split(hostString);
      forall k :: 0 <= k < |tokens| && ExpandToken(tokens[k], defaultUser, defaultPort).Failure?
        && (forall j :: 0 <= j < k ==> ExpandToken(tokens[j], defaultUser, defaultPort).Success?)
        ==> HostStringSpec(hostString, defaultUser, defaultPort) == Failure(ExpandToken(tokens[k], defaultUser, defaultPort).error)
  {
    var tokens := Split(hostString);
    ExpandAllFailsIff(tokens, defaultUser, defaultPort);
    forall k | 0 <= k < |tokens| && ExpandToken(tokens[k], defaultUser, defaultPort).Failure?
        && (forall j :: 0 <= j < k ==> ExpandToken(tokens[j], defaultUser, defaultPort).Success?)
      ensures HostStringSpec(hostString, defaultUser, defaultPort) == Failure(ExpandToken(tokens[k], defaultUser, defaultPort).error)
    {
      FirstErrorWins(tokens, k, defaultUser, defaultPort);
    }
  }

  /** Tokens without a range pattern add nothing in the first pass. */
  lemma {:induction false} PlainTokensExpandToNothing(tokens: seq<string>, defaultUser: Option<string>, defaultPort: Option<string>)
    requires forall k :: 0 <= k < |tokens| ==> MatchRange(tokens[k]).None?
    ensures ExpandAll(tokens, defaultUser, defaultPort) == Success([])
    decreases |tokens|
  {
    if tokens != [] {
      var init := tokens[..|tokens| - 1];
      assert forall k :: 0 <= k < |init| ==> init[k] == tokens[k];
      PlainTokensExpandToNothing(init, defaultUser, defaultPort);
      assert ExpandToken(tokens[|tokens| - 1], defaultUser, defaultPort) == Success([]);
      var none: seq<Host> := [];
      assert none + none == none;
    }
  }

  /** Tokens without a range pattern all go through `parse_host` in the second pass, in order. */
  lemma {:induction false} PlainTokensParsed(tokens: seq<string>, defaultUser: Option<string>, defaultPort: Option<string>)
    requires forall k :: 0 <= k < |tokens| ==> MatchRange(tokens[k]).None?
    ensures PlainHosts(tokens, defaultUser, defaultPort) == ParseAll(tokens, defaultUser, defaultPort)
    decreases |tokens|
  {
    if tokens != [] {
      var init := tokens[..|tokens| - 1];
      assert forall k :: 0 <= k < |init| ==> init[k] == tokens[k];
      PlainTokensParsed(init, defaultUser, defaultPort);
    }
  }

  /** A string with no range pattern in any token: one host per token, each from `parse_host`, in order. */
  lemma PlainHostString(hostString: string, defaultUser: Option<string>, defaultPort: Option<string>)
    requires forall k :: 0 <= k < |Split(hostString)| ==> MatchRange(Split(hostString)[k]).None?
    ensures HostStringSpec(hostString, defaultUser, defaultPort) == Success(ParseAll(Split(hostString), defaultUser, defaultPort))
  {
    PlainTokensExpandToNothing(Split(hostString), defaultUser, defaultPort);
    PlainTokensParsed(Split(hostString), defaultUser, defaultPort);
    assert [] + ParseAll(Split(hostString), defaultUser, defaultPort) == ParseAll(Split(hostString), defaultUser, defaultPort);
  }
}
