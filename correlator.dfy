/** ProcessLog of xray/limiter/hook.go: reads one line of Xray's log and,
    when the line names both a credential and an accepted connection,
    admits the connection through the limiter. */
module LogHook {
  import opened Wrappers
  import opened GoStrings
  import opened Admission
  import opened LogPatterns
  import opened Limiter

  /** The credential and client address a line carries, when the line
      passes the `identifier:` guard and matches both patterns. */
  function Correlate(line: string): (r: Option<(string, string)>)
    ensures r.Some? ==> r.value.0 != "" && AllIdChars(r.value.0)
    ensures r.Some? ==> r.value.1 != "" && forall k :: 0 <= k < |r.value.1| ==> r.value.1[k] != '\n'
    ensures r.Some? ==> FindIdentifier(line).Some? && FindAccept(line).Some?
  {
    if !Contains(line, "identifier:") then None
    else
      match FindIdentifier(line)
      case None => None
      case Some(uuid) =>
        match FindAccept(line)
        case None => None
        case Some(m) => Some((uuid, m.address))
  }

  /** The `identifier:` guard never changes the outcome: a line is
      correlated exactly when both patterns match it, with the identifier
      group as the credential and the lazy group as the address. */
  lemma GuardChangesNothing(line: string)
    ensures Correlate(line).Some? <==> FindIdentifier(line).Some? && FindAccept(line).Some?
    ensures Correlate(line).Some? ==>
              Correlate(line).value == (FindIdentifier(line).value, FindAccept(line).value.address)
  {
    if FindIdentifier(line).Some? {
      IdentifierNeedsGuard(line, FindIdentifierFrom(line, 0).value);
    }
  }

  /** The line Xray would write for an accepted connection followed by the
      credential it was identified by. */
  function AcceptThenIdentifier(protocol: string, address: string, port: string, uuid: string): string {
    AcceptLit + protocol + FromLit + address + ":" + port + " " + IdentifierLit + uuid
  }

  /** No identifier match starts before `id` when the only colon before
      it is followed by something other than a space. */
  lemma NoIdentifierBefore(s: string, colon: nat, id: nat)
    requires colon + 1 < id && LiteralAt(s, IdentifierLit, id)
    requires forall j :: 0 <= j < id && s[j] == ':' ==> j == colon
    requires s[colon + 1] != ' '
    ensures forall p: nat :: p < id ==> !IdentifierAt(s, p)
  {
    forall p: nat | p < id
      ensures !IdentifierAt(s, p)
    {
      if p + 12 <= |s| {
        if p + 10 < id {
          assert s[p + 10] != ':' || s[p + 11] != ' ';
        } else {
          assert s[p + 10] == s[id..id + 12][p + 10 - id] == IdentifierLit[p + 10 - id];
          assert s[p + 10] != ':';
        }
        assert s[p..p + 12][10] == s[p + 10];
        assert s[p..p + 12][11] == s[p + 11];
      }
    }
  }

  /** The accept part of such a line: the match starts at 0 and its
      address group is the address. */
  lemma AcceptPartMatches(protocol: string, address: string, port: string, uuid: string)
    requires protocol != "" && AllIdChars(protocol)
    requires address != "" && NoColon(address) && forall k :: 0 <= k < |address| ==> address[k] != '\n'
    requires port != "" && AllDigits(port)
    ensures var s := AcceptThenIdentifier(protocol, address, port, uuid);
            AcceptAt(s, 0) && FindAccept(s) == Some(MatchAt(s, 0)) && MatchAt(s, 0).address == address
  {
    var s := AcceptThenIdentifier(protocol, address, port, uuid);
    var f := |AcceptLit| + |protocol|;
    var q := f + |FromLit|;
    var colon := q + |address|;
    assert s[..|AcceptLit|] == AcceptLit;
    assert s[|AcceptLit|..f] == protocol;
    assert s[f..q] == FromLit;
    assert s[q..colon] == address;
    assert s[colon] == ':' && s[colon + 1] == port[0];
    AcceptAtStart(s, protocol, address);
  }

  /** The colons of such a line before its identifier part: only the one
      between the address and the port. */
  lemma OnlyPortColon(protocol: string, address: string, port: string, uuid: string)
    requires AllIdChars(protocol) && NoColon(address) && port != "" && AllDigits(port)
    ensures var s := AcceptThenIdentifier(protocol, address, port, uuid);
            var colon := |AcceptLit| + |protocol| + |FromLit| + |address|;
            var id := colon + 1 + |port| + 1;
            s[colon] == ':' && !(s[colon + 1] == ' ') && LiteralAt(s, IdentifierLit, id)
            && forall j :: 0 <= j < id && s[j] == ':' ==> j == colon
  {
    var s := AcceptThenIdentifier(protocol, address, port, uuid);
    var f := |AcceptLit| + |protocol|;
    var q := f + |FromLit|;
    var colon := q + |address|;
    var sp := colon + 1 + |port|;
    var id := sp + 1;
    assert s[id..id + |IdentifierLit|] == IdentifierLit;
    assert s[colon + 1] == port[0];
    forall j | 0 <= j < id && s[j] == ':'
      ensures j == colon
    {
    }
  }

  /** The identifier part of such a line: the leftmost uuidRegex match is
      the one after the port, and its group is the credential. */
  lemma IdentifierPartMatches(protocol: string, address: string, port: string, uuid: string)
    requires AllIdChars(protocol) && NoColon(address) && port != "" && AllDigits(port)
    requires uuid != "" && AllIdChars(uuid)
    ensures FindIdentifier(AcceptThenIdentifier(protocol, address, port, uuid)) == Some(uuid)
  {
    var s := AcceptThenIdentifier(protocol, address, port, uuid);
    var colon := |AcceptLit| + |protocol| + |FromLit| + |address|;
    var id := colon + 1 + |port| + 1;
    var us := id + |IdentifierLit|;
    OnlyPortColon(protocol, address, port, uuid);
    NoIdentifierBefore(s, colon, id);
    assert us + |uuid| == |s| && s[us..] == uuid;
    IdRunExact(s, us, |uuid|);
    assert IdentifierAt(s, id);
    assert FindIdentifierFrom(s, 0) == Some(id);
    IdentifierGroupAtEnd(s, id, uuid);
  }

  /** Such a line is correlated to exactly that credential and address,
      provided the address holds no colon (an IPv4 address or a name). */
  lemma AcceptThenIdentifierCorrelates(protocol: string, address: string, port: string, uuid: string)
    requires protocol != "" && AllIdChars(protocol)
    requires address != "" && NoColon(address) && forall k :: 0 <= k < |address| ==> address[k] != '\n'
    requires port != "" && AllDigits(port)
    requires uuid != "" && AllIdChars(uuid)
    ensures Correlate(AcceptThenIdentifier(protocol, address, port, uuid)) == Some((uuid, address))
  {
    var s := AcceptThenIdentifier(protocol, address, port, uuid);
    AcceptPartMatches(protocol, address, port, uuid);
    IdentifierPartMatches(protocol, address, port, uuid);
    GuardChangesNothing(s);
  }

  /** A credential a line can carry never holds a colon, so its counter
      keys cannot collide with another credential's. */
  lemma CorrelatedUuidHasNoColon(line: string)
    requires Correlate(line).Some?
    ensures NoColon(Correlate(line).value.0)
  {
    var u := Correlate(line).value.0;
    forall i | 0 <= i < |u| ensures u[i] != ':' {
      assert IsIdChar(u[i]);
    }
  }

  /** ProcessLog: when the limiter is on and the line correlates, the
      connection is checked and, when admitted, added; nothing else
      changes the store. A line that carries only the accept event, or a
      closed connection, is only logged. */
  method ProcessLog(lim: Limiter, line: string, faults: ReadFaults, execFailed: bool)
    modifies lim`store
    ensures var c := Correlate(line);
            lim.store == if lim.IsEnabled() && c.Some? && Admits(lim.config, old(lim.store), c.value.0, c.value.1, faults) && !execFailed
                         then AfterAdd(old(lim.store), c.value.0, c.value.1)
                         else old(lim.store)
    ensures Consistent(old(lim.store)) ==> Consistent(lim.store)
  {
    if !lim.IsEnabled() {
      return;
    }
    if Contains(line, "identifier:") {
      var uuid := FindIdentifier(line);
      if uuid.Some? {
        var accept := FindAccept(line);
        if accept.Some? {
          var clientIP := accept.value.address;
          assert Correlate(line) == Some((uuid.value, clientIP));
          CorrelatedUuidHasNoColon(line);
          var ok := lim.CheckConnection(uuid.value, clientIP, faults);
          if !ok {
            return;
          }
          lim.AddConnection(uuid.value, clientIP, execFailed);
          return;
        }
      }
    }
    assert Correlate(line).None?;
  }
}
