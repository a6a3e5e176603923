/** Per-row lineage: consecutive row ids and a hash chain over the serialised rows. */
module RowLineage {
  import opened HexText

  type Bytes = seq<bv8>

  /** A hash function with 32-byte results. */
  ghost predicate HashLaw(sha: Bytes -> Bytes) { forall x: Bytes :: |sha(x)| == 32 }

  /** Sixty-four zero digits. */
  const GENESIS: Bytes := seq(64, _ => 0x30)

  /** The chain hash after some rows: each hash covers the previous one and the row. */
  function Chain(sha: Bytes -> Bytes, rows: seq<Bytes>): Bytes {
    if rows == [] then GENESIS else Hex(sha(Chain(sha, rows[..|rows| - 1]) + rows[|rows| - 1]))
  }

  datatype Lineage = Lineage(rowId: nat, version: int, originFile: string, prevHash: Bytes)

  class RowLineageTracker {
    const sha: Bytes -> Bytes
    var originFile: string
    var version: int
    var nextRowId: nat
    var prevHash: Bytes
    ghost var rows: seq<Bytes>

    /** The id counts the rows so far and the hash is their chain. */
    ghost predicate Valid()
      reads this
    {
      nextRowId == |rows| && prevHash == Chain(sha, rows)
    }

    constructor (sha: Bytes -> Bytes, originFile: string, version: int)
      ensures Valid() && rows == [] && this.sha == sha && this.originFile == originFile && this.version == version
    {
      this.sha, this.originFile, this.version, nextRowId, prevHash, rows := sha, originFile, version, 0, GENESIS, [];
    }

    /** The lineage of the next row: the next id, and the hash of everything before it. */
    method Next(row: Bytes) returns (l: Lineage)
      requires Valid()
      modifies this`nextRowId, this`prevHash, this`rows
      ensures Valid() && rows == old(rows) + [row]
      ensures l == Lineage(|old(rows)|, version, originFile, Chain(sha, old(rows)))
    {
      l := Lineage(nextRowId, version, originFile, prevHash);
      nextRowId := nextRowId + 1;
      prevHash := Hex(sha(prevHash + row));
      rows := rows + [row];
    }

    /** A new batch: ids and chain go on. */
    method Reset(originFile: string, version: int)
      requires Valid()
      modifies this`originFile, this`version
      ensures Valid() && this.originFile == originFile && this.version == version
    {
      this.originFile, this.version := originFile, version;
    }
  }

  /** What equal chain hashes prove: the same rows, or two inputs with one hash, or an input whose hash
      is all zeros. */
  datatype Evidence = SameRows | Collision(x: Bytes, y: Bytes) | ZeroPreimage(x: Bytes)

  ghost predicate Proves(e: Evidence, sha: Bytes -> Bytes, a: seq<Bytes>, b: seq<Bytes>) {
    match e
    case SameRows => a == b
    case Collision(x, y) => x != y && sha(x) == sha(y)
    case ZeroPreimage(x) => Hex(sha(x)) == GENESIS
  }

  lemma {:induction false} ChainLength(sha: Bytes -> Bytes, rows: seq<Bytes>)
    requires HashLaw(sha)
    ensures |Chain(sha, rows)| == 64
  {
    hide Hex;
    if rows != [] {
      assert |sha(Chain(sha, rows[..|rows| - 1]) + rows[|rows| - 1])| == 32;
    }
  }

  /** Runs that end with the same chain hash saw identical rows, or exhibit a broken hash function. */
  lemma {:induction false} ChainEvidence(sha: Bytes -> Bytes, a: seq<Bytes>, b: seq<Bytes>) returns (e: Evidence)
    requires HashLaw(sha) && Chain(sha, a) == Chain(sha, b)
    ensures Proves(e, sha, a, b)
    decreases |a|
  {
    hide Hex, GENESIS;
    if a == [] && b == [] {
      e := SameRows;
    } else if a == [] {
      e := ZeroPreimage(Chain(sha, b[..|b| - 1]) + b[|b| - 1]);
    } else if b == [] {
      e := ZeroPreimage(Chain(sha, a[..|a| - 1]) + a[|a| - 1]);
    } else {
      var p, q := a[..|a| - 1], b[..|b| - 1];
      var x, y := Chain(sha, p) + a[|a| - 1], Chain(sha, q) + b[|b| - 1];
      HexInjective(sha(x), sha(y));
      if x != y {
        e := Collision(x, y);
      } else {
        ChainLength(sha, p);
        ChainLength(sha, q);
        assert x[..64] == Chain(sha, p) && y[..64] == Chain(sha, q);
        assert x[64..] == a[|a| - 1] && y[64..] == b[|b| - 1];
        e := ChainEvidence(sha, p, q);
        assert a == p + [a[|a| - 1]] && b == q + [b[|b| - 1]];
      }
    }
  }
}
