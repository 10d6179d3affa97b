/** The two fixed regular expressions of xray/limiter/hook.go, written out
    as leftmost-first searches with Go's `regexp` semantics:

      acceptRegex  `accept a ([a-zA-Z0-9\-]+) connection from (.+?):(\d+)`
      uuidRegex    `identifier: ([a-zA-Z0-9\-]+)`

    `FindStringSubmatch` reports the match that starts leftmost; at that
    start a greedy group takes as much as still lets the rest match, and
    the lazy group `(.+?)` as little. */
module LogPatterns {
  import opened Wrappers
  import opened GoStrings

  /** `[a-zA-Z0-9\-]` */
  predicate IsIdChar(c: char) {
    ('a' <= c <= 'z') || ('A' <= c <= 'Z') || ('0' <= c <= '9') || c == '-'
  }

  predicate AllIdChars(s: string) {
    forall i :: 0 <= i < |s| ==> IsIdChar(s[i])
  }

  /** `s` holds `lit` at position `i`. */
  predicate LiteralAt(s: string, lit: string, i: nat) {
    i + |lit| <= |s| && s[i..i + |lit|] == lit
  }

  /** The length of the longest run of characters satisfying `IsIdChar`
      that starts at `i`. */
  function IdRun(s: string, i: nat): (n: nat)
    requires i <= |s|
    ensures i + n <= |s|
    ensures forall k :: i <= k < i + n ==> IsIdChar(s[k])
    ensures i + n == |s| || !IsIdChar(s[i + n])
    decreases |s| - i
  {
    if i < |s| && IsIdChar(s[i]) then 1 + IdRun(s, i + 1) else 0
  }

  /** The length of the longest run of decimal digits that starts at `i`. */
  function DigitRun(s: string, i: nat): (n: nat)
    requires i <= |s|
    ensures i + n <= |s|
    ensures forall k :: i <= k < i + n ==> IsDigit(s[k])
    ensures i + n == |s| || !IsDigit(s[i + n])
    decreases |s| - i
  {
    if i < |s| && IsDigit(s[i]) then 1 + DigitRun(s, i + 1) else 0
  }

  // ---------------------------------------------------------------- uuidRegex

  const IdentifierLit := "identifier: "

  /** uuidRegex matches at `p`: the literal, then at least one identifier character. */
  predicate IdentifierAt(s: string, p: nat) {
    LiteralAt(s, IdentifierLit, p) && IdRun(s, p + |IdentifierLit|) > 0
  }

  /** The leftmost position at or after `p` where uuidRegex matches. */
  function FindIdentifierFrom(s: string, p: nat): (r: Option<nat>)
    requires p <= |s|
    ensures r.Some? ==> p <= r.value <= |s| && IdentifierAt(s, r.value)
    ensures r.Some? ==> forall q :: p <= q < r.value ==> !IdentifierAt(s, q)
    ensures r.None? ==> forall q :: p <= q <= |s| ==> !IdentifierAt(s, q)
    decreases |s| - p
  {
    if IdentifierAt(s, p) then Some(p)
    else if p == |s| then None
    else FindIdentifierFrom(s, p + 1)
  }

  /** `uuidRegex.FindStringSubmatch(line)[1]`, None when there is no match. */
  function FindIdentifier(s: string): (r: Option<string>)
    ensures r.Some? <==> exists p: nat :: p <= |s| && IdentifierAt(s, p)
    ensures r.Some? ==> r.value != "" && AllIdChars(r.value)
    // the group is the one of the leftmost match
    ensures r.Some? ==> FindIdentifierFrom(s, 0).Some? && r.value == IdentifierGroupAt(s, FindIdentifierFrom(s, 0).value)
  {
    match FindIdentifierFrom(s, 0)
    case None =>
      assert forall q :: 0 <= q <= |s| ==> !IdentifierAt(s, q);
      None
    case Some(p) => Some(IdentifierGroupAt(s, p))
  }

  /** The group of the uuidRegex match that starts at `p`. */
  function IdentifierGroupAt(s: string, p: nat): (g: string)
    requires IdentifierAt(s, p)
    ensures g != "" && AllIdChars(g)
  {
    var start := p + |IdentifierLit|;
    s[start..start + IdRun(s, start)]
  }

  /** When the leftmost uuidRegex match is at `p` and the line ends with
      an identifier run `u` after its literal, the group is `u`. */
  lemma IdentifierGroupAtEnd(s: string, p: nat, u: string)
    requires FindIdentifierFrom(s, 0) == Some(p)
    requires p + |IdentifierLit| + |u| == |s| && s[p + |IdentifierLit|..] == u && AllIdChars(u)
    ensures FindIdentifier(s) == Some(u)
  {
    GroupAtEnd(s, p, u);
  }

  /** The group of a uuidRegex match whose run reaches the end of the line. */
  lemma GroupAtEnd(s: string, p: nat, u: string)
    requires IdentifierAt(s, p)
    requires p + |IdentifierLit| + |u| == |s| && s[p + |IdentifierLit|..] == u && AllIdChars(u)
    ensures IdentifierGroupAt(s, p) == u
  {
    SuffixRun(s, p + |IdentifierLit|, u);
  }

  /** A line that ends with a run `u` of identifier characters from `i` on
      has that run as its longest one at `i`. */
  lemma SuffixRun(s: string, i: nat, u: string)
    requires i + |u| == |s| && s[i..] == u && AllIdChars(u)
    ensures IdRun(s, i) == |u| && s[i..i + IdRun(s, i)] == u
  {
    forall k | i <= k < i + |u|
      ensures IsIdChar(s[k])
    {
      assert s[k] == u[k - i];
    }
    IdRunExact(s, i, |u|);
  }

  // -------------------------------------------------------------- acceptRegex

  const AcceptLit := "accept a "
  const FromLit := " connection from "

  /** `(.+?):(\d` can take `len` characters at `q`: at least one, none a
      newline, then a colon and a digit. */
  predicate AddressFits(s: string, q: nat, len: nat) {
    1 <= len && q + len + 1 < |s|
    && (forall k :: q <= k < q + len ==> s[k] != '\n')
    && s[q + len] == ':' && IsDigit(s[q + len + 1])
  }

  /** The lazy group `(.+?)` at `q`: the shortest length, from `len` on,
      that lets `:(\d+)` follow. The characters before position
      `q + len - 1` are already known not to be newlines. */
  function LazyAddress(s: string, q: nat, len: nat): (r: Option<nat>)
    requires 1 <= len
    requires forall k :: q <= k < q + len - 1 ==> k < |s| && s[k] != '\n'
    ensures r.Some? ==> len <= r.value && AddressFits(s, q, r.value)
    ensures r.Some? ==> forall l :: len <= l < r.value ==> !AddressFits(s, q, l)
    ensures r.None? ==> forall l :: len <= l ==> !AddressFits(s, q, l)
    decreases |s| - len
  {
    if q + len + 1 >= |s| then None
    else if s[q + len - 1] == '\n' then
      None
    else if s[q + len] == ':' && IsDigit(s[q + len + 1]) then Some(len)
    else LazyAddress(s, q, len + 1)
  }

  /** acceptRegex matches at `p`. The identifier run is the longest one
      there: `[a-zA-Z0-9\-]+` is followed by a space, which it cannot
      match, so only its longest run can be followed by " connection from ". */
  predicate AcceptAt(s: string, p: nat) {
    LiteralAt(s, AcceptLit, p)
    && var n := IdRun(s, p + |AcceptLit|);
       n > 0 && LiteralAt(s, FromLit, p + |AcceptLit| + n)
       && LazyAddress(s, p + |AcceptLit| + n + |FromLit|, 1).Some?
  }

  /** The leftmost position at or after `p` where acceptRegex matches. */
  function FindAcceptFrom(s: string, p: nat): (r: Option<nat>)
    requires p <= |s|
    ensures r.Some? ==> p <= r.value <= |s| && AcceptAt(s, r.value)
    ensures r.Some? ==> forall q :: p <= q < r.value ==> !AcceptAt(s, q)
    ensures r.None? ==> forall q :: p <= q <= |s| ==> !AcceptAt(s, q)
    decreases |s| - p
  {
    if AcceptAt(s, p) then Some(p)
    else if p == |s| then None
    else FindAcceptFrom(s, p + 1)
  }

  /** `a` holds a colon followed by a digit at `k`. */
  predicate ColonDigitAt(a: string, k: int) {
    0 <= k && k + 1 < |a| && a[k] == ':' && IsDigit(a[k + 1])
  }

  /** The three groups of acceptRegex. */
  datatype AcceptMatch = AcceptMatch(protocol: string, address: string, port: string)

  /** The text a match covers. */
  function MatchedText(m: AcceptMatch): string {
    AcceptLit + m.protocol + FromLit + m.address + ":" + m.port
  }

  /** The boundaries of the acceptRegex match that starts at `p`: where the
      identifier group ends, where the address group starts, the colon
      before the port, and where the port ends. */
  function ProtocolEnd(s: string, p: nat): nat
    requires AcceptAt(s, p)
  {
    p + |AcceptLit| + IdRun(s, p + |AcceptLit|)
  }

  function AddressStart(s: string, p: nat): nat
    requires AcceptAt(s, p)
  {
    ProtocolEnd(s, p) + |FromLit|
  }

  function PortColon(s: string, p: nat): (colon: nat)
    requires AcceptAt(s, p)
    ensures AddressStart(s, p) < colon && colon + 1 < |s| && s[colon] == ':' && IsDigit(s[colon + 1])
  {
    AddressStart(s, p) + LazyAddress(s, AddressStart(s, p), 1).value
  }

  function PortEnd(s: string, p: nat): (e: nat)
    requires AcceptAt(s, p)
    ensures PortColon(s, p) + 1 < e <= |s|
  {
    PortColon(s, p) + 1 + DigitRun(s, PortColon(s, p) + 1)
  }

  /** The groups of the acceptRegex match that starts at `p`. */
  function MatchAt(s: string, p: nat): AcceptMatch
    requires AcceptAt(s, p)
  {
    AcceptMatch(s[p + |AcceptLit|..ProtocolEnd(s, p)], s[AddressStart(s, p)..PortColon(s, p)],
                s[PortColon(s, p) + 1..PortEnd(s, p)])
  }

  /** The groups are what the pattern says: a non-empty identifier, a
      non-empty address on one line, and a non-empty port of digits. The
      address is the shortest that works, so past its first character it
      holds no colon followed by a digit. */
  lemma MatchAtGroups(s: string, p: nat)
    requires AcceptAt(s, p)
    ensures var m := MatchAt(s, p);
            m.protocol != "" && AllIdChars(m.protocol)
            && m.address != "" && (forall k :: 0 <= k < |m.address| ==> m.address[k] != '\n')
            && m.port != "" && AllDigits(m.port)
            && (forall k :: 1 <= k < |m.address| - 1 ==> !ColonDigitAt(m.address, k))
  {
    var q := AddressStart(s, p);
    var m := MatchAt(s, p);
    assert m.address == s[q..PortColon(s, p)];
    forall k | 1 <= k < |m.address| - 1
      ensures !ColonDigitAt(m.address, k)
    {
      assert !AddressFits(s, q, k);
    }
  }

  /** A line that starts with an accept event: the match starts at 0, and
      when the address holds no colon its group is the whole address. */
  lemma AcceptAtStart(s: string, protocol: string, address: string)
    requires LiteralAt(s, AcceptLit, 0)
    requires protocol != "" && AllIdChars(protocol) && LiteralAt(s, protocol, |AcceptLit|)
    requires LiteralAt(s, FromLit, |AcceptLit| + |protocol|)
    requires var q := |AcceptLit| + |protocol| + |FromLit|;
             address != "" && q + |address| + 1 < |s| && s[q..q + |address|] == address
             && (forall k :: 0 <= k < |address| ==> address[k] != ':' && address[k] != '\n')
             && s[q + |address|] == ':' && IsDigit(s[q + |address| + 1])
    ensures AcceptAt(s, 0) && FindAccept(s) == Some(MatchAt(s, 0)) && MatchAt(s, 0).address == address
  {
    var q := |AcceptLit| + |protocol| + |FromLit|;
    RunBeforeOther(s, |AcceptLit|, protocol);
    WholeAddress(s, q, address);
    assert AcceptAt(s, 0);
    AddressGroup(s, 0, q, address);
  }

  /** A run `u` of identifier characters at `i` that the next character
      ends is the longest run there. */
  lemma RunBeforeOther(s: string, i: nat, u: string)
    requires AllIdChars(u) && LiteralAt(s, u, i)
    requires i + |u| < |s| && s[i + |u|] == ' '
    ensures IdRun(s, i) == |u|
  {
    forall k | i <= k < i + |u|
      ensures IsIdChar(s[k])
    {
      assert s[k] == u[k - i];
    }
    IdRunExact(s, i, |u|);
  }

  /** The address group of the match at `p`, once the lazy group is known
      to take all of `address`. */
  lemma AddressGroup(s: string, p: nat, q: nat, address: string)
    requires AcceptAt(s, p)
    requires q == AddressStart(s, p)
    requires LazyAddress(s, q, 1) == Some(|address|) && s[q..q + |address|] == address
    ensures MatchAt(s, p).address == address
  {
  }

  /** An address without colons, followed by a colon and a digit, is taken whole by `(.+?)`. */
  lemma WholeAddress(s: string, q: nat, address: string)
    requires address != "" && q + |address| + 1 < |s| && s[q..q + |address|] == address
    requires forall k :: 0 <= k < |address| ==> address[k] != ':' && address[k] != '\n'
    requires s[q + |address|] == ':' && IsDigit(s[q + |address| + 1])
    ensures LazyAddress(s, q, 1) == Some(|address|)
  {
    forall k | q <= k < q + |address|
      ensures s[k] != '\n'
    {
      assert s[k] == address[k - q];
    }
    assert AddressFits(s, q, |address|);
    forall l | 1 <= l < |address|
      ensures !AddressFits(s, q, l)
    {
      assert s[q + l] == address[l];
    }
  }

  /** A run of identifier characters ends where the first other character is. */
  lemma IdRunExact(s: string, i: nat, n: nat)
    requires i + n <= |s|
    requires forall k :: i <= k < i + n ==> IsIdChar(s[k])
    requires i + n == |s| || !IsIdChar(s[i + n])
    ensures IdRun(s, i) == n
  {
  }

  /** A match covers exactly the text its groups spell out. */
  lemma MatchAtText(s: string, p: nat)
    requires AcceptAt(s, p)
    ensures LiteralAt(s, MatchedText(MatchAt(s, p)), p)
  {
    var start, f, q, colon, e := p + |AcceptLit|, ProtocolEnd(s, p), AddressStart(s, p), PortColon(s, p), PortEnd(s, p);
    LiteralAtSlice(s, start, f);
    LiteralAtSlice(s, q, colon);
    LiteralAtSlice(s, colon + 1, e);
    assert LiteralAt(s, ":", colon) by {
      assert s[colon..colon + 1] == [s[colon]];
    }
    SixLiterals(s, AcceptLit, s[start..f], FromLit, s[q..colon], ":", s[colon + 1..e], p, start, f, q, colon, colon + 1);
  }

  /** A slice is found where it was cut. */
  lemma LiteralAtSlice(s: string, i: nat, j: nat)
    requires i <= j <= |s|
    ensures LiteralAt(s, s[i..j], i)
  {
  }

  /** Six texts found one after the other are found together. */
  lemma SixLiterals(s: string, a: string, b: string, c: string, d: string, e: string, f: string,
                    i: nat, j: nat, k: nat, l: nat, m: nat, n: nat)
    requires j == i + |a| && k == j + |b| && l == k + |c| && m == l + |d| && n == m + |e|
    requires LiteralAt(s, a, i) && LiteralAt(s, b, j) && LiteralAt(s, c, k)
    requires LiteralAt(s, d, l) && LiteralAt(s, e, m) && LiteralAt(s, f, n)
    ensures LiteralAt(s, a + b + c + d + e + f, i)
  {
    LiteralAtConcat(s, a, b, i, j);
    LiteralAtConcat(s, a + b, c, i, k);
    LiteralAtConcat(s, a + b + c, d, i, l);
    LiteralAtConcat(s, a + b + c + d, e, i, m);
    LiteralAtConcat(s, a + b + c + d + e, f, i, n);
  }

  /** Two texts found one after the other are found together. */
  lemma LiteralAtConcat(s: string, a: string, b: string, i: nat, j: nat)
    requires j == i + |a| && LiteralAt(s, a, i) && LiteralAt(s, b, j)
    ensures LiteralAt(s, a + b, i)
  {
    assert s[i..i + |a + b|] == s[i..j] + s[j..j + |b|];
  }

  /** `acceptRegex.FindStringSubmatch(line)[1..4]`, None when there is no match. */
  function FindAccept(s: string): (r: Option<AcceptMatch>)
    ensures r.Some? <==> exists p: nat :: p <= |s| && AcceptAt(s, p)
    ensures r.Some? ==> r.value.protocol != "" && AllIdChars(r.value.protocol)
    ensures r.Some? ==> r.value.address != "" && forall k :: 0 <= k < |r.value.address| ==> r.value.address[k] != '\n'
    ensures r.Some? ==> r.value.port != "" && AllDigits(r.value.port)
    ensures r.Some? ==> forall k :: 1 <= k < |r.value.address| - 1 ==> !ColonDigitAt(r.value.address, k)
    // the groups are the ones of the leftmost match
    ensures r.Some? ==> FindAcceptFrom(s, 0).Some? && r.value == MatchAt(s, FindAcceptFrom(s, 0).value)
  {
    match FindAcceptFrom(s, 0)
    case None =>
      assert forall q :: 0 <= q <= |s| ==> !AcceptAt(s, q);
      None
    case Some(p) =>
      MatchAtGroups(s, p);
      Some(MatchAt(s, p))
  }

  /** Both patterns hold the literal their `strings.Contains` guard looks
      for, so in ProcessLog the guards never reject a line the patterns
      would have matched at any position. */
  lemma IdentifierNeedsGuard(s: string, p: nat)
    requires IdentifierAt(s, p)
    ensures Contains(s, "identifier:")
  {
    assert s[p..p + 11] == IdentifierLit[..11];
    ContainsAt(s, "identifier:", p);
  }

  lemma AcceptNeedsGuard(s: string, p: nat)
    requires AcceptAt(s, p)
    ensures Contains(s, "accept")
  {
    assert s[p..p + 6] == AcceptLit[..6];
    ContainsAt(s, "accept", p);
  }
}
