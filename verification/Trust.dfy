// The quarantine: when the node at the breadcrumb becomes trusted.
module Trust {
  import opened Bits
  import opened Repository

  datatype Verdict = Trusted(breadcrumb: Breadcrumb) | Quarantined | Throws

  function Max(a: int, b: int): (m: int)
    ensures m >= a && m >= b && (m == a || m == b)
  {
    if a < b then b else a
  }

  /** The candidate is the node at the breadcrumb, whose id claims the given timestamp. */
  function MaybeUpdateBreadcrumb<D>(stored: map<nat, Entry<D>>, b: Breadcrumb, timestamp: int,
                                    spacing: int, now: int): Verdict
  {
    if b.untrusted_begin == 0 then
      Trusted(Breadcrumb(1, now))
    else
      match LookUp(stored, b.untrusted_begin - 1)
      case Missing => Throws
      case Corrupt => Throws
      case Found(current) =>
        if timestamp < current then Quarantined
        else
          var effective_now := Max(b.last_trusted_node_authorised_at, now);
          var quarantine_ends := b.last_trusted_node_authorised_at + spacing;
          var trusted_at := Max(quarantine_ends, timestamp);
          if effective_now < trusted_at then Quarantined
          else if b.untrusted_begin + 1 == W64 then Throws
          else Trusted(Breadcrumb(b.untrusted_begin + 1, trusted_at))
  }

  /** What prune_repository decides about the node at the breadcrumb; absent means nothing to decide. */
  function Decide<D>(s: State<D>, spacing: int, now: int): Verdict {
    match LookUp(s.stored, s.breadcrumb.untrusted_begin)
    case Missing => Quarantined
    case Corrupt => Throws
    case Found(timestamp) => MaybeUpdateBreadcrumb(s.stored, s.breadcrumb, timestamp, spacing, now)
  }

  /** Trusting a node past the first costs a full spacing, paid for by the clock. */
  lemma TrustCosts<D>(s: State<D>, spacing: int, now: int)
    requires s.breadcrumb.untrusted_begin > 0 && Decide(s, spacing, now).Trusted?
    ensures var b, b' := s.breadcrumb, Decide(s, spacing, now).breadcrumb;
            && b'.untrusted_begin == b.untrusted_begin + 1
            && b'.last_trusted_node_authorised_at >= b.last_trusted_node_authorised_at + spacing
            && b'.last_trusted_node_authorised_at <= Max(b.last_trusted_node_authorised_at, now)
  {
  }

  /** Past node 0 a later clock only widens what is trusted, and never changes when it was authorised. */
  lemma TrustIsMonotone<D>(s: State<D>, spacing: int, t1: int, t2: int)
    requires s.breadcrumb.untrusted_begin > 0 && t1 <= t2
    ensures Decide(s, spacing, t1).Trusted? ==> Decide(s, spacing, t2) == Decide(s, spacing, t1)
  {
  }
}
