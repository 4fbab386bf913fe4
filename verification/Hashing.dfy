/**
 SHA-256 as an ideal hash: a digest is its preimage, so equal digests mean equal text. That is the one
 cryptographic assumption of the model.
*/
module Hashing {
  import opened Texts
  import opened Json
  import opened CanonicalJson

  datatype Digest = Sha256(preimage: Text)

  function HashPlan(plan: Json): Digest { Sha256(Canonical(plan)) }

  function ContentHash(content: Json): Digest { Sha256(Canonicalize(content)) }

  /** Two plans hash alike exactly when they are the same value, whatever built them. */
  lemma HashPlanDecidesSame(p: Json, q: Json)
    requires Plain(p) && Plain(q)
    ensures HashPlan(p) == HashPlan(q) <==> Same(p, q)
  {
    CanonicalDecidesSame(p, q);
  }

  /** The connectors' content hash draws the same distinctions as the plan hash. */
  lemma ContentHashDecidesSame(p: Json, q: Json)
    requires Plain(p) && Plain(q)
    ensures ContentHash(p) == ContentHash(q) <==> Same(p, q)
  {
    SerializersAgree(p);
    SerializersAgree(q);
    CanonicalDecidesSame(p, q);
  }
}
