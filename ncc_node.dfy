/**
 * The network nodes and their searches. The tables the queries read are
 * held in memory as sequences of rows; a query returns the set of current
 * node rows it selects, since SQL without ORDER BY fixes no order and the
 * rows a join repeats are the same node.
 */
module NccNodes {
  import opened Text
  import opened IPv4
  import opened Bits
  import opened LikePatterns
  import opened NamePatterns
  import NodeIps

  /** A row of ncc_nodes; `current` marks the rows CurrentNccNode selects. */
  datatype NccNode = NccNode(
    id: nat,
    current: bool,
    vid: Option<string>,
    name: Option<string>,
    creationDate: Option<string>,
    deletionDate: Option<string>)

  /** A row of hw_nodes, linked to its network node by ncc_node_id. */
  datatype HwNode = HwNode(id: nat, nccNodeId: Option<nat>, versionDecoded: Option<string>)

  /** A row of tickets: a ticket of some ticket system linked to a network node. */
  datatype Ticket = Ticket(nccNodeId: Option<nat>, ticketSystemId: nat, ticketId: Option<string>)

  /** The tables the searches read. */
  datatype Db = Db(
    nodes: seq<NccNode>,
    hwNodes: seq<HwNode>,
    nodeIps: seq<NodeIps.NodeIp>,
    tickets: seq<Ticket>)

  /** `CurrentNccNode.all`. */
  function Current(db: Db): set<NccNode>
  {
    set n | n in db.nodes && n.current
  }

  // ---------------------------------------------------------------------------
  // vid validation

  datatype VidError = VidBlank | VidMalformed

  /** Object#blank?: nil, or a string of white space only. */
  predicate IsBlank(v: Option<string>)
  {
    v.None? || forall i | 0 <= i < |v.value| :: IsSpace(v.value[i])
  }

  /** `/\A0x[0-9a-f]{8}\z/`: exactly "0x" and eight lower-case hexadecimal digits. */
  predicate IsVid(s: string)
  {
    |s| == 10 && s[0] == '0' && s[1] == 'x' && forall i | 2 <= i < 10 :: IsLowerHexDigit(s[i])
  }

  /** nil.to_s is "". */
  function ToS(v: Option<string>): string
  {
    if v.Some? then v.value else []
  }

  /** The presence and format validations of vid; both run, each adds its own error. */
  function VidErrors(vid: Option<string>): set<VidError>
  {
    (if IsBlank(vid) then {VidBlank} else {}) + (if IsVid(ToS(vid)) then {} else {VidMalformed})
  }

  /** A vid is accepted exactly when it is present and has the format; nil fails both checks. */
  lemma VidAccepted(vid: Option<string>)
    ensures VidErrors(vid) == {} <==> vid.Some? && IsVid(vid.value)
    ensures VidErrors(None) == {VidBlank, VidMalformed}
  {
    if vid.Some? && IsVid(vid.value) {
      assert !IsSpace(vid.value[0]);
    }
    if VidErrors(vid) == {} {
      assert VidBlank !in VidErrors(vid) && VidMalformed !in VidErrors(vid);
    }
    assert IsBlank(None) && !IsVid(ToS(None));
  }

  /** The vid of every 32-bit value, "0x" and its eight hexadecimal digits, passes validation. */
  lemma VidOfU32(n: nat)
    requires n <= MaxU32
    ensures VidErrors(Some("0x" + Hex8(n))) == {}
  {
    var h := Hex8(n);
    var hs := HexString(n);
    assert h == RJust(hs, 8, '0');
    assert |h| == 8;
    forall i | 0 <= i < 8 ensures IsLowerHexDigit(h[i]) {
      if i >= |h| - |hs| {
        assert h[i] == h[|h| - |hs|..][i - (|h| - |hs|)] == hs[i - (|h| - |hs|)];
      }
    }
    var v := "0x" + h;
    assert forall i | 2 <= i < 10 :: v[i] == h[i - 2];
    VidAccepted(Some(v));
  }

  // ---------------------------------------------------------------------------
  // where_vid_like

  /** Current nodes whose vid is exactly v: `where("vid = ?", v)`. */
  function VidEquals(db: Db, v: string): set<NccNode>
  {
    set n | n in db.nodes && n.current && n.vid == Some(v)
  }

  /** Current nodes whose vid is one of the candidates. */
  function VidIn(db: Db, candidates: seq<string>): set<NccNode>
  {
    set n | n in db.nodes && n.current && n.vid.Some? && n.vid.value in candidates
  }

  /** Current nodes with `vid ILIKE "%vid%"`; the input is not escaped. */
  function VidILike(db: Db, vid: string): set<NccNode>
  {
    set n | n in db.nodes && n.current && n.vid.Some? && ILike("%" + vid + "%", n.vid.value)
  }

  /**
   * where_vid_like: the union, over the candidate vids the identifier parser
   * offers for the input, of the exact matches, and then the nodes whose vid
   * contains the input in a case-insensitive LIKE.
   */
  method WhereVidLike(db: Db, vid: string, normalVids: seq<string>) returns (r: set<NccNode>)
    ensures r == VidIn(db, normalVids) + VidILike(db, vid)
  {
    r := {};
    for i := 0 to |normalVids|
      invariant r == VidIn(db, normalVids[..i])
    {
      assert normalVids[..i + 1] == normalVids[..i] + [normalVids[i]];
      r := r + VidEquals(db, normalVids[i]);
    }
    assert normalVids[..|normalVids|] == normalVids;
    r := r + VidILike(db, vid);
  }

  /** Every current node holding one of the candidate vids is found. */
  lemma VidCandidateFound(db: Db, vid: string, normalVids: seq<string>, n: NccNode)
    requires n in db.nodes && n.current && n.vid.Some? && n.vid.value in normalVids
    ensures n in VidIn(db, normalVids) + VidILike(db, vid)
  {
  }

  /** Every current node whose vid contains the input, case ignored, is found. */
  lemma VidSubstringFound(db: Db, vid: string, normalVids: seq<string>, n: NccNode)
    requires '\\' !in vid
    requires n in db.nodes && n.current && n.vid.Some? && Contains(Lower(n.vid.value), Lower(vid))
    ensures n in VidIn(db, normalVids) + VidILike(db, vid)
  {
    LowerLikePattern(vid);
    LowerNoBackslash(vid);
    LikeContainsUnescaped(Lower(vid), Lower(n.vid.value));
  }

  /** Only current nodes are found. */
  lemma VidFoundCurrent(db: Db, vid: string, normalVids: seq<string>)
    ensures VidIn(db, normalVids) + VidILike(db, vid) <= Current(db)
  {
  }

  /** Lower-casing keeps the "%" signs around the input in place. */
  lemma LowerLikePattern(v: string)
    ensures Lower("%" + v + "%") == "%" + Lower(v) + "%"
  {
    LowerAppend("%" + v, "%");
    LowerAppend("%", v);
    assert Lower("%") == "%";
  }

  lemma LowerNoBackslash(v: string)
    requires '\\' !in v
    ensures '\\' !in Lower(v)
  {
    forall i | 0 <= i < |v| ensures Lower(v)[i] != '\\' {
      assert v[i] != '\\';
    }
  }

  // ---------------------------------------------------------------------------
  // where_name_like

  /** where_name_like: current nodes whose name matches the rewritten name, case ignored. */
  function WhereNameLike(db: Db, name: string): set<NccNode>
  {
    set n | n in db.nodes && n.current && n.name.Some? && NameMatches(name, n.name.value)
  }

  /**
   * For input without regex metacharacters, a current node is found exactly
   * when the space-separated words of the input occur in its name in order,
   * case ignored.
   */
  lemma NameFound(db: Db, name: string, n: NccNode)
    requires IsPlainName(name)
    ensures n in WhereNameLike(db, name) <==>
      (n in db.nodes && n.current && n.name.Some?
       && TokensInOrder(SplitAll(Lower(name), ' '), Lower(n.name.value)))
  {
    if n.name.Some? {
      NameMatchesWords(name, n.name.value);
    }
  }

  // ---------------------------------------------------------------------------
  // where_ip_like

  /** Some hardware node of n has the given id. */
  predicate OwnsHwNode(db: Db, n: NccNode, hwNodeId: Option<nat>)
  {
    exists k | 0 <= k < |db.hwNodes| :: Some(db.hwNodes[k].id) == hwNodeId && db.hwNodes[k].nccNodeId == Some(n.id)
  }

  /** The address row j belongs to a hardware node of n and its u32 lies in [lo, hi]. */
  predicate IpRowIn(db: Db, n: NccNode, j: nat, lo: int, hi: int)
    requires j < |db.nodeIps|
  {
    var ip := db.nodeIps[j];
    ip.u32.Some? && lo <= ip.u32.value <= hi && OwnsHwNode(db, n, ip.hwNodeId)
  }

  /**
   * `joins(hw_nodes: :node_ips).where("node_ips.u32 >= ? AND node_ips.u32 <= ?", lo, hi)`
   * on the current nodes.
   */
  function IpBetween(db: Db, lo: int, hi: int): set<NccNode>
  {
    set n | n in db.nodes && n.current && exists j | 0 <= j < |db.nodeIps| :: IpRowIn(db, n, j, lo, hi)
  }

  /**
   * where_ip_like: an address selects the nodes with that address; a CIDR
   * block or an address range selects the nodes with an address inside its
   * bounds; anything else selects nothing.
   */
  method WhereIpLike(db: Db, ip: string) returns (r: set<NccNode>)
    ensures IsAddress(ip) ==> r == IpBetween(db, U32(ip).value, U32(ip).value)
    ensures U32Bounds(ip).Some? ==> r == IpBetween(db, U32Bounds(ip).value.0, U32Bounds(ip).value.1)
    ensures !IsAddress(ip) && U32Bounds(ip).None? ==> r == {}
  {
    r := {};
    if IsAddress(ip) {
      var u := U32(ip).value;
      r := IpBetween(db, u, u);
      AddressIsNotBlock(ip);
    }
    if Cidr(ip).Some? || Range(ip).Some? {
      var (lo, hi) := U32Bounds(ip).value;
      r := IpBetween(db, lo, hi);
    }
  }

  /**
   * The address row j belongs to a hardware node of n and lies in the network
   * of c: its bits above the prefix length are those of c's address.
   */
  predicate IpRowInNetwork(db: Db, n: NccNode, j: nat, c: CidrParts)
    requires j < |db.nodeIps|
    requires IsAddress(c.addr) && c.bits <= 32
  {
    var ip := db.nodeIps[j];
    var zeros := 32 - c.bits;
    ip.u32.Some? && ip.u32.value >= 0 && ShiftRight(ip.u32.value, zeros) == ShiftRight(U32(c.addr).value, zeros)
    && OwnsHwNode(db, n, ip.hwNodeId)
  }

  /**
   * A CIDR block selects exactly the current nodes with an address in the
   * same network: the same bits above the prefix length.
   */
  lemma CidrSelectsNetwork(db: Db, ip: string, n: NccNode)
    requires Cidr(ip).Some?
    ensures var c := Cidr(ip).value;
      var b := U32Bounds(ip).value;
      n in IpBetween(db, b.0, b.1) <==>
        (n in db.nodes && n.current
         && exists j | 0 <= j < |db.nodeIps| :: IpRowInNetwork(db, n, j, c))
  {
    CidrBounds(ip);
    var c := Cidr(ip).value;
    var u := U32(c.addr).value;
    var zeros := 32 - c.bits;
    var b := U32Bounds(ip).value;
    forall j | 0 <= j < |db.nodeIps|
      ensures IpRowIn(db, n, j, b.0, b.1) <==> IpRowInNetwork(db, n, j, c)
    {
      if db.nodeIps[j].u32.Some? && db.nodeIps[j].u32.value >= 0 {
        var x: nat := db.nodeIps[j].u32.value;
        assert b.0 <= x <= b.1 <==> ShiftRight(x, zeros) == ShiftRight(u, zeros);
      }
    }
    if n in IpBetween(db, b.0, b.1) {
      var j :| 0 <= j < |db.nodeIps| && IpRowIn(db, n, j, b.0, b.1);
      assert IpRowInNetwork(db, n, j, c);
    }
    if n in db.nodes && n.current && exists j | 0 <= j < |db.nodeIps| :: IpRowInNetwork(db, n, j, c) {
      var j :| 0 <= j < |db.nodeIps| && IpRowInNetwork(db, n, j, c);
      assert IpRowIn(db, n, j, b.0, b.1);
    }
  }

  /** A range selects exactly the current nodes with an address between its two ends. */
  lemma RangeSelectsBetween(db: Db, ip: string, n: NccNode)
    requires Range(ip).Some?
    ensures var rg := Range(ip).value;
      var b := U32Bounds(ip).value;
      b.0 <= b.1
      && (n in IpBetween(db, b.0, b.1) <==>
            (n in db.nodes && n.current
             && exists j | 0 <= j < |db.nodeIps| :: IpRowIn(db, n, j, U32(rg.low).value, U32(rg.high).value)))
  {
    RangeBounds(ip);
  }

  // ---------------------------------------------------------------------------
  // where_version_decoded_like

  /** Some hardware node of n has a decoded version the pattern matches. */
  predicate VersionLike(db: Db, n: NccNode, pattern: string)
  {
    exists k | 0 <= k < |db.hwNodes| ::
      db.hwNodes[k].nccNodeId == Some(n.id) && db.hwNodes[k].versionDecoded.Some?
      && Like(pattern, db.hwNodes[k].versionDecoded.value)
  }

  /** where_version_decoded_like: the input is escaped and searched as a substring. */
  function WhereVersionDecodedLike(db: Db, version: string): set<NccNode>
  {
    set n | n in db.nodes && n.current && VersionLike(db, n, "%" + EscapeLike(version) + "%")
  }

  /** A current node is found exactly when one of its hardware nodes' decoded versions contains the input. */
  lemma VersionFound(db: Db, version: string, n: NccNode)
    ensures n in WhereVersionDecodedLike(db, version) <==>
      (n in db.nodes && n.current
       && exists k | 0 <= k < |db.hwNodes| ::
         db.hwNodes[k].nccNodeId == Some(n.id) && db.hwNodes[k].versionDecoded.Some?
         && Contains(db.hwNodes[k].versionDecoded.value, version))
  {
    forall k | 0 <= k < |db.hwNodes| && db.hwNodes[k].versionDecoded.Some?
      ensures Like("%" + EscapeLike(version) + "%", db.hwNodes[k].versionDecoded.value)
        <==> Contains(db.hwNodes[k].versionDecoded.value, version)
    {
      LikeContains(version, db.hwNodes[k].versionDecoded.value);
    }
  }

  // ---------------------------------------------------------------------------
  // where_date_like

  /** The text of a date column of n, as the `::text` cast renders it. */
  function DateText(n: NccNode, field: string): Option<string>
    requires field == "creation_date" || field == "deletion_date"
  {
    if field == "creation_date" then n.creationDate else n.deletionDate
  }

  /**
   * where_date_like: no query (nil) unless the field is one of the two date
   * columns; otherwise the escaped input is searched in the column's text.
   */
  function WhereDateLike(db: Db, field: string, date: string): (r: Option<set<NccNode>>)
    ensures r.None? <==> field != "creation_date" && field != "deletion_date"
  {
    if field == "deletion_date" || field == "creation_date" then
      Some(set n | n in db.nodes && n.current && DateText(n, field).Some?
             && Like("%" + EscapeLike(date) + "%", DateText(n, field).value))
    else
      None
  }

  /** where_creation_date_like. */
  function WhereCreationDateLike(db: Db, date: string): (r: set<NccNode>)
    ensures forall n :: n in r <==>
      (n in db.nodes && n.current && n.creationDate.Some? && Contains(n.creationDate.value, date))
  {
    DateFound(db, "creation_date", date);
    WhereDateLike(db, "creation_date", date).value
  }

  /** where_deletion_date_like. */
  function WhereDeletionDateLike(db: Db, date: string): (r: set<NccNode>)
    ensures forall n :: n in r <==>
      (n in db.nodes && n.current && n.deletionDate.Some? && Contains(n.deletionDate.value, date))
  {
    DateFound(db, "deletion_date", date);
    WhereDateLike(db, "deletion_date", date).value
  }

  /** On a date column a current node is found exactly when the column's text contains the input. */
  lemma DateFound(db: Db, field: string, date: string)
    requires field == "creation_date" || field == "deletion_date"
    ensures forall n :: (n in WhereDateLike(db, field, date).value <==>
      (n in db.nodes && n.current && DateText(n, field).Some? && Contains(DateText(n, field).value, date)))
  {
    forall n | n in db.nodes && DateText(n, field).Some?
      ensures Like("%" + EscapeLike(date) + "%", DateText(n, field).value) <==> Contains(DateText(n, field).value, date)
    {
      LikeContains(date, DateText(n, field).value);
    }
  }

  // ---------------------------------------------------------------------------
  // where_ticket_like

  /** Some ticket of n, of any ticket system, has an id the pattern matches. */
  predicate TicketLike(db: Db, n: NccNode, pattern: string)
  {
    exists k | 0 <= k < |db.tickets| ::
      db.tickets[k].nccNodeId == Some(n.id) && db.tickets[k].ticketId.Some?
      && Like(pattern, db.tickets[k].ticketId.value)
  }

  /** where_ticket_like: the input goes into the LIKE pattern unescaped. */
  function WhereTicketLike(db: Db, ticketId: string): set<NccNode>
  {
    set n | n in db.nodes && n.current && TicketLike(db, n, "%" + ticketId + "%")
  }

  /** A current node with a ticket, of any system, whose id contains the input is found. */
  lemma TicketFound(db: Db, ticketId: string, n: NccNode, k: nat)
    requires '\\' !in ticketId
    requires n in db.nodes && n.current && k < |db.tickets|
    requires db.tickets[k].nccNodeId == Some(n.id) && db.tickets[k].ticketId.Some?
    requires Contains(db.tickets[k].ticketId.value, ticketId)
    ensures n in WhereTicketLike(db, ticketId)
  {
    LikeContainsUnescaped(ticketId, db.tickets[k].ticketId.value);
  }

  /**
   * For input without "\", "_" and "%" the search is exact: a current node
   * is found exactly when one of its tickets, of any system, has an id that
   * contains the input.
   */
  lemma TicketFoundExactly(db: Db, ticketId: string, n: NccNode)
    requires forall i | 0 <= i < |ticketId| :: !IsLikeSpecial(ticketId[i])
    ensures n in WhereTicketLike(db, ticketId) <==>
      (n in db.nodes && n.current
       && exists k | 0 <= k < |db.tickets| ::
         db.tickets[k].nccNodeId == Some(n.id) && db.tickets[k].ticketId.Some?
         && Contains(db.tickets[k].ticketId.value, ticketId))
  {
    EscapeLikePlain(ticketId);
    forall k | 0 <= k < |db.tickets| && db.tickets[k].ticketId.Some?
      ensures Like("%" + ticketId + "%", db.tickets[k].ticketId.value)
        <==> Contains(db.tickets[k].ticketId.value, ticketId)
    {
      LikeContains(ticketId, db.tickets[k].ticketId.value);
    }
  }

  /** Only current nodes with a ticket are found. */
  lemma TicketFoundHasTicket(db: Db, ticketId: string, n: NccNode)
    requires n in WhereTicketLike(db, ticketId)
    ensures n in Current(db)
    ensures exists k | 0 <= k < |db.tickets| :: db.tickets[k].nccNodeId == Some(n.id) && db.tickets[k].ticketId.Some?
  {
  }
}
