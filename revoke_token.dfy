/**
 * The revocation registry of models/revokeToken.ts: a process-wide set of
 * token strings that have been explicitly invalidated (at logout).
 */
module RevokeToken {

  /** The registry object; `revoked` is the module-level `Set<string>`. */
  class RevocationRegistry {
    var revoked: set<string>

    constructor ()
      ensures revoked == {}
    {
      revoked := {};
    }

    /** `addRevokedToken`: inserts the token; nothing else changes. */
    method AddRevokedToken(token: string)
      modifies this
      ensures revoked == old(revoked) + {token}
      ensures token in revoked
      ensures forall u :: u != token ==> (u in revoked <==> u in old(revoked))
    {
      revoked := revoked + {token};
    }

    /** `isTokenRevoked`: a membership test that leaves the set as it is. */
    method IsTokenRevoked(token: string) returns (isRevoked: bool)
      ensures isRevoked <==> token in revoked
    {
      isRevoked := token in revoked;
    }
  }

  /** The two operations the registry offers. */
  datatype RegistryOp = Revoke(token: string) | Query(token: string)

  /** The set after one operation: a query never changes it. */
  function Step(s: set<string>, op: RegistryOp): (s': set<string>)
    ensures s <= s'
    ensures op.Query? ==> s' == s
    ensures op.Revoke? ==> op.token in s' && s' - {op.token} <= s
  {
    match op
    case Revoke(t) => s + {t}
    case Query(_) => s
  }

  /** The set after a whole sequence of operations, applied left to right. */
  function Replay(s: set<string>, ops: seq<RegistryOp>): set<string>
    decreases |ops|
  {
    if ops == [] then s else Replay(Step(s, ops[0]), ops[1..])
  }

  /** There is no removal: a revoked token stays revoked under any sequence of operations. */
  lemma {:induction false} RevocationIsPermanent(s: set<string>, ops: seq<RegistryOp>)
    ensures s <= Replay(s, ops)
    decreases |ops|
  {
    if ops != [] {
      RevocationIsPermanent(Step(s, ops[0]), ops[1..]);
    }
  }

  /** What the set holds after any sequence: the start plus exactly the revoked tokens. */
  lemma {:induction false} ReplayContents(s: set<string>, ops: seq<RegistryOp>, t: string)
    ensures t in Replay(s, ops) <==> t in s || exists i :: 0 <= i < |ops| && ops[i] == Revoke(t)
    decreases |ops|
  {
    if ops != [] {
      ReplayContents(Step(s, ops[0]), ops[1..], t);
      if t in Replay(s, ops) && t !in s && ops[0] != Revoke(t) {
        var i :| 0 <= i < |ops[1..]| && ops[1..][i] == Revoke(t);
        assert ops[i + 1] == Revoke(t);
      }
      if exists i :: 0 <= i < |ops| && ops[i] == Revoke(t) {
        var i :| 0 <= i < |ops| && ops[i] == Revoke(t);
        if i > 0 {
          assert ops[1..][i - 1] == Revoke(t);
        }
      }
    }
  }

  /** Revoking the same token twice leaves the same set as revoking it once. */
  lemma RevokeIsIdempotent(s: set<string>, t: string)
    ensures Replay(s, [Revoke(t), Revoke(t)]) == Replay(s, [Revoke(t)])
  {
  }
}
