/** Verifying the signatures of a multi-signature transaction, with the loop's two early exits. */
module MultiSignatures {
  import opened Options

  /** The index of a participant's key, and that participant's signature. */
  datatype Part = Part(index: nat, signature: nat)

  datatype Error = DuplicateParticipant | NoSuchKey

  /** Whether a signature verifies under the participant's key. */
  type Verifies = (nat, nat) -> bool

  function Count(parts: seq<Part>, verifies: Verifies): (n: nat)
    ensures n <= |parts|
  {
    if parts == [] then 0 else
      Count(parts[..|parts| - 1], verifies)
      + if verifies(parts[|parts| - 1].index, parts[|parts| - 1].signature) then 1 else 0
  }

  ghost predicate DistinctIndexes(parts: seq<Part>) {
    forall i, j | 0 <= i < j < |parts| :: parts[i].index != parts[j].index
  }

  lemma {:induction false} CountGrows(parts: seq<Part>, verifies: Verifies, n: nat)
    requires n <= |parts|
    ensures Count(parts[..n], verifies) <= Count(parts, verifies) <= Count(parts[..n], verifies) + |parts| - n
    decreases |parts| - n
  {
    if n == |parts| {
      assert parts[..n] == parts;
    } else {
      CountGrows(parts, verifies, n + 1);
      assert parts[..n + 1][..n] == parts[..n];
    }
  }

  lemma CountNone(verifies: Verifies)
    ensures Count([], verifies) == 0
  {
  }

  lemma CountNext(parts: seq<Part>, verifies: Verifies, n: nat)
    requires n < |parts|
    ensures Count(parts[..n + 1], verifies)
         == Count(parts[..n], verifies) + if verifies(parts[n].index, parts[n].signature) then 1 else 0
  {
    assert parts[..n + 1][..n] == parts[..n];
  }

  lemma FirstCounts(parts: seq<Part>, verifies: Verifies, n: nat)
    requires n < |parts| && verifies(parts[0].index, parts[0].signature)
    ensures Count(parts[..n + 1], verifies) > 0
  {
    CountGrows(parts[..n + 1], verifies, 1);
    assert parts[..n + 1][..1] == parts[..1];
    CountNone(verifies);
    CountNext(parts, verifies, 0);
  }

  /** With distinct participants that all have a key, the answer is whether at least `min` signatures verify. A minimum
      of 0, which no valid asset has, is met only by a first signature that does not verify. */
  method VerifySignatures(parts: seq<Part>, keys: nat, min: nat, verifies: Verifies)
    returns (result: Result<bool, Error>)
    ensures DistinctIndexes(parts) && (forall p | p in parts :: p.index < keys) ==>
              result == Ok(if min == 0 then parts != [] && !verifies(parts[0].index, parts[0].signature)
                           else Count(parts, verifies) >= min)
    ensures result == Err(DuplicateParticipant) ==> !DistinctIndexes(parts)
    ensures result == Err(NoSuchKey) ==> exists p | p in parts :: p.index >= keys
    ensures min > 0 && result == Ok(true) ==> Count(parts, verifies) >= min
  {
    hide Count;
    CountNone(verifies);
    var publicKeyIndexes: set<nat> := {};
    var verified := false;
    var verifiedSignatures := 0;
    var index := 0;
    while index < |parts|
      invariant 0 <= index <= |parts| && !verified
      invariant verifiedSignatures == Count(parts[..index], verifies)
      invariant forall k :: k in publicKeyIndexes <==> exists j | 0 <= j < index :: parts[j].index == k
      invariant index > 0 ==> verifiedSignatures != min && |parts| - (index - verifiedSignatures) >= min
      invariant min > 0 ==> verifiedSignatures < min
      invariant min == 0 && index > 0 ==> verifies(parts[0].index, parts[0].signature)
    {
      var part := parts[index];
      CountGrows(parts, verifies, index + 1);
      CountNext(parts, verifies, index);
      if verifies(parts[0].index, parts[0].signature) { FirstCounts(parts, verifies, index); }
      if part.index in publicKeyIndexes {
        return Err(DuplicateParticipant);
      }
      publicKeyIndexes := publicKeyIndexes + {part.index};
      if part.index >= keys {
        return Err(NoSuchKey);
      }
      if verifies(part.index, part.signature) {
        verifiedSignatures := verifiedSignatures + 1;
      }
      if verifiedSignatures == min {
        verified := true;
        break;
      } else if |parts| - (index + 1 - verifiedSignatures) < min {
        break;
      }
      index := index + 1;
    }
    CountGrows(parts, verifies, index);
    assert parts[..|parts|] == parts;
    return Ok(verified);
  }
}
