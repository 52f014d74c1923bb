/**
 The error report the validator builds for one record. In PHP every location
 is an array that holds a list of messages, children keyed by field name or
 by stringified element key, or both; here the two are separate fields of one
 node, so a message can never be overwritten by a child that happens to have
 an integer-like name.
 */
module ErrorTree {

  datatype ErrNode = ErrNode(msgs: seq<string>, kids: map<string, ErrNode>) {
    /** PHP `empty(...)` on the location. */
    predicate IsEmpty() {
      msgs == [] && kids == map[]
    }
  }

  const Empty: ErrNode := ErrNode([], map[])

  /** `$errors[$k]` after `initErrorArray`: the existing location, or a fresh empty one. */
  function Slot(m: map<string, ErrNode>, k: string): ErrNode {
    if k in m then m[k] else Empty
  }

  /** Writes `n` back at `k`, or unsets `k` when `n` is empty. */
  function Settle(m: map<string, ErrNode>, k: string, n: ErrNode): (r: map<string, ErrNode>)
    ensures Slot(r, k) == n
    ensures k in r <==> !n.IsEmpty()
    ensures forall j :: j != k ==> (j in r <==> j in m) && Slot(r, j) == Slot(m, j)
  {
    if n.IsEmpty() then m - {k} else m[k := n]
  }

  /** Appends messages in order, as repeated `$errors[] = $msg` do. */
  function AddMsgs(n: ErrNode, msgs: seq<string>): ErrNode {
    n.(msgs := n.msgs + msgs)
  }

  /** `$errors[] = $msg`. */
  function AddMsg(n: ErrNode, msg: string): ErrNode {
    AddMsgs(n, [msg])
  }

  /** The pruning invariant: no location below `n` is empty, at any depth. */
  predicate Tidy(n: ErrNode) {
    forall k | k in n.kids :: !n.kids[k].IsEmpty() && Tidy(n.kids[k])
  }

  /**
   `b` keeps everything `a` reported: every message list of `a` is a prefix of
   the list at the same location of `b`.
   */
  predicate Extends(a: ErrNode, b: ErrNode) {
    && a.msgs <= b.msgs
    && forall k | k in a.kids :: k in b.kids && Extends(a.kids[k], b.kids[k])
  }

  lemma {:induction false} ExtendsRefl(a: ErrNode)
    ensures Extends(a, a)
  {
    forall k | k in a.kids
      ensures Extends(a.kids[k], a.kids[k])
    {
      ExtendsRefl(a.kids[k]);
    }
  }

  lemma {:induction false} ExtendsTrans(a: ErrNode, b: ErrNode, c: ErrNode)
    requires Extends(a, b) && Extends(b, c)
    ensures Extends(a, c)
  {
    forall k | k in a.kids
      ensures k in c.kids && Extends(a.kids[k], c.kids[k])
    {
      ExtendsTrans(a.kids[k], b.kids[k], c.kids[k]);
    }
  }

  /** Whatever extends a non-empty location is non-empty. */
  lemma ExtendsNonEmpty(a: ErrNode, b: ErrNode)
    requires Extends(a, b) && !a.IsEmpty()
    ensures !b.IsEmpty()
  {
    if a.kids != map[] {
      var k :| k in a.kids;
      assert k in b.kids;
    }
  }

  /** In a tidy node, a location is present exactly when it is non-empty. */
  lemma TidySlot(n: ErrNode, k: string)
    requires Tidy(n)
    ensures k in n.kids <==> !Slot(n.kids, k).IsEmpty()
  {
  }

  /** Appending messages keeps a location tidy and loses nothing. */
  lemma AddMsgsKeeps(n: ErrNode, msgs: seq<string>)
    requires Tidy(n)
    ensures Tidy(AddMsgs(n, msgs)) && Extends(n, AddMsgs(n, msgs))
  {
    ExtendsRefl(n);
    forall k | k in n.kids
      ensures Extends(n.kids[k], AddMsgs(n, msgs).kids[k])
    {
      ExtendsRefl(n.kids[k]);
    }
  }

  /**
   Writing back a tidy location that extends the old one keeps the parent
   tidy and loses nothing.
   */
  lemma SettleKeeps(e: ErrNode, k: string, n: ErrNode)
    requires Tidy(e) && Tidy(n)
    requires Extends(Slot(e.kids, k), n)
    ensures Tidy(e.(kids := Settle(e.kids, k, n)))
    ensures Extends(e, e.(kids := Settle(e.kids, k, n)))
  {
    var r := e.(kids := Settle(e.kids, k, n));
    if k in e.kids {
      ExtendsNonEmpty(e.kids[k], n);
    }
    forall j | j in e.kids
      ensures j in r.kids && Extends(e.kids[j], r.kids[j])
    {
      if j != k {
        ExtendsRefl(e.kids[j]);
      }
    }
  }
}
