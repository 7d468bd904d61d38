/**
 * The node_ips table and the three validations that guard an insert into
 * it: the address is unique per hardware node and type, the hardware node
 * exists, and the address is a 32-bit unsigned value.
 */
module NodeIps {
  import opened Text
  import IPv4
  import Bits

  /** A row of node_ips; the Rails attribute `type` is called kind here. */
  datatype NodeIp = NodeIp(u32: Option<int>, hwNodeId: Option<nat>, kind: Option<string>)

  /** The attribute each failed validation reports. */
  datatype Error = Taken | HwNodeMissing | OutOfRange

  /** `value.to_i` on the typecast attribute: nil reads as 0. */
  function ToI(v: Option<int>): int
  {
    if v.Some? then v.value else 0
  }

  /** The `validates_each :u32` condition. */
  predicate InU32Range(v: Option<int>)
  {
    0 <= ToI(v) <= IPv4.MaxU32
  }

  /** Equal in the uniqueness scope: u32, hw_node_id and type (nil equals nil). */
  predicate SameKey(a: NodeIp, b: NodeIp)
  {
    a.u32 == b.u32 && a.hwNodeId == b.hwNodeId && a.kind == b.kind
  }

  /** Some stored row already has the record's key. */
  predicate IsTaken(rows: seq<NodeIp>, rec: NodeIp)
  {
    exists i | 0 <= i < |rows| :: SameKey(rows[i], rec)
  }

  /** `validates :hw_node, presence: true`: the id names an existing hardware node. */
  predicate HwNodePresent(rec: NodeIp, hwNodes: set<nat>)
  {
    rec.hwNodeId.Some? && rec.hwNodeId.value in hwNodes
  }

  /** All validations are run, and every one that fails adds its error. */
  function Errors(rows: seq<NodeIp>, rec: NodeIp, hwNodes: set<nat>): set<Error>
  {
    (if IsTaken(rows, rec) then {Taken} else {})
    + (if HwNodePresent(rec, hwNodes) then {} else {HwNodeMissing})
    + (if InU32Range(rec.u32) then {} else {OutOfRange})
  }

  /** No two rows share a key. */
  predicate UniqueKeys(rows: seq<NodeIp>)
  {
    forall i, j | 0 <= i < j < |rows| :: !SameKey(rows[i], rows[j])
  }

  /** Every stored address passed the range check. */
  predicate AllInRange(rows: seq<NodeIp>)
  {
    forall i | 0 <= i < |rows| :: InU32Range(rows[i].u32)
  }

  /** The table of stored node addresses. */
  class NodeIpTable {
    var rows: seq<NodeIp>

    ghost predicate Valid()
      reads this
    {
      UniqueKeys(rows) && AllInRange(rows)
    }

    constructor ()
      ensures rows == [] && Valid()
    {
      rows := [];
    }

    /** `NodeIp#save`: validate, then store the record only when no validation failed. */
    method Insert(rec: NodeIp, hwNodes: set<nat>) returns (errs: set<Error>)
      requires Valid()
      modifies this
      ensures Valid()
      ensures errs == Errors(old(rows), rec, hwNodes)
      ensures errs == {} ==> rows == old(rows) + [rec]
      ensures errs != {} ==> rows == old(rows)
    {
      errs := Errors(rows, rec, hwNodes);
      if errs == {} {
        InsertKeepsValid(rows, rec, hwNodes);
        rows := rows + [rec];
      }
    }
  }

  // ---------------------------------------------------------------------------
  // What the validations guarantee

  /** An insert succeeds exactly when the key is new, the hardware node exists and u32 is in range. */
  lemma Accepted(rows: seq<NodeIp>, rec: NodeIp, hwNodes: set<nat>)
    ensures Errors(rows, rec, hwNodes) == {} <==>
      ((forall i | 0 <= i < |rows| :: !SameKey(rows[i], rec))
       && rec.hwNodeId.Some? && rec.hwNodeId.value in hwNodes
       && 0 <= ToI(rec.u32) <= IPv4.MaxU32)
  {
    var e := Errors(rows, rec, hwNodes);
    if IsTaken(rows, rec) {
      assert Taken in e;
    }
    if !HwNodePresent(rec, hwNodes) {
      assert HwNodeMissing in e;
    }
    if !InU32Range(rec.u32) {
      assert OutOfRange in e;
    }
  }

  /** An accepted insert keeps the keys unique and every address in range. */
  lemma InsertKeepsValid(rows: seq<NodeIp>, rec: NodeIp, hwNodes: set<nat>)
    requires UniqueKeys(rows) && AllInRange(rows)
    requires Errors(rows, rec, hwNodes) == {}
    ensures UniqueKeys(rows + [rec]) && AllInRange(rows + [rec])
  {
    Accepted(rows, rec, hwNodes);
    var r := rows + [rec];
    forall i, j | 0 <= i < j < |r| ensures !SameKey(r[i], r[j]) {
      if j == |rows| {
        assert !SameKey(rows[i], rec);
      }
    }
  }

  /** A record whose key is already stored is rejected as taken. */
  lemma DuplicateRejected(rows: seq<NodeIp>, i: nat, rec: NodeIp, hwNodes: set<nat>)
    requires i < |rows| && SameKey(rows[i], rec)
    ensures Taken in Errors(rows, rec, hwNodes)
  {
  }

  /**
   * The same address under another hardware node or another type is not
   * taken: uniqueness is scoped by hw_node_id and type.
   */
  lemma OtherScopeNotTaken(rows: seq<NodeIp>, rec: NodeIp, hwNodes: set<nat>)
    requires forall i | 0 <= i < |rows| :: rows[i].hwNodeId != rec.hwNodeId || rows[i].kind != rec.kind
    ensures Taken !in Errors(rows, rec, hwNodes)
  {
  }

  /** A record with no hardware node, or one naming a missing node, is rejected. */
  lemma MissingHwNodeRejected(rows: seq<NodeIp>, rec: NodeIp, hwNodes: set<nat>)
    requires rec.hwNodeId.None? || rec.hwNodeId.value !in hwNodes
    ensures HwNodeMissing in Errors(rows, rec, hwNodes)
  {
  }

  /** Both ends of [0, 4294967295] pass the range check; one step beyond either end fails. */
  lemma RangeBoundaries()
    ensures InU32Range(Some(0)) && InU32Range(Some(4294967295))
    ensures !InU32Range(Some(-1)) && !InU32Range(Some(4294967296))
  {
  }

  /** A missing address reads as 0 and so passes the range check. */
  lemma NilAddressInRange()
    ensures InU32Range(None)
  {
  }

  /** The range check accepts exactly the values a 32-bit unsigned integer holds. */
  lemma RangeIsU32(n: int)
    ensures InU32Range(Some(n)) <==> 0 <= n < Bits.Pow2(32)
  {
    IPv4.Pow2ThirtyTwo();
  }
}
