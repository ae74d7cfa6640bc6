/** From the bans table to the verdict on a packet: the lifecycle's runs and the XDP program put together. */
module EndToEnd {
  import opened Addresses
  import opened Backends
  import opened Lifecycle
  import opened LifecycleInvariant
  import opened LifecycleTheorems
  import opened XdpFilter

  /** After any run, whatever failed in it: while attached, a readable frame whose source is outside the ledger is
      dropped exactly when its source has a current row; an IPv4-mapped IPv6 source is never dropped. */
  lemma VerdictFollowsRows(s: Sys, cfg: Config, tr: Trace, d: Drift, frame: seq<Byte>, n: nat, src: IP)
    requires Inv(s, cfg, d) && Run(s, cfg, tr).attached
    requires n <= VLAN_MAX_DEPTH && Carries(frame, n, src)
    ensures var s', d' := Run(s, cfg, tr), DriftRun(s, cfg, tr, d);
            var dropped := Blocked(frame, s'.kernel.v4, s'.kernel.v6);
            && (Mapped(src) ==> !dropped)
            && (Canonical(src) && src !in d'.missing + d'.extra ==> (dropped <==> HasRow(s'.bans, src)))
  {
    var s', d' := Run(s, cfg, tr), DriftRun(s, cfg, tr, d);
    RunKeepsInv(s, cfg, tr, d);
    forall m, other | 0 <= m <= VLAN_MAX_DEPTH && Carries(frame, m, other)
      ensures other == src
    {
      CarriesOnce(frame, m, other, n, src);
    }
    if Canonical(src) {
      assert AgreesAt(s', cfg, d', src);
    }
  }

  /** In every quiet composite run that ends attached: a frame is dropped exactly when a complete IP header behind at
      most two tags has a source with a current row, and never when that source is whitelisted. */
  lemma QuietVerdictFollowsRows(s: Sys, cfg: Config, tr: Trace, frame: seq<Byte>)
    requires Inv(s, cfg, NO_DRIFT) && !cfg.standalone && QuietRun(s, cfg, tr) && Run(s, cfg, tr).attached
    ensures var s' := Run(s, cfg, tr);
            && (Blocked(frame, s'.kernel.v4, s'.kernel.v6) <==>
                exists n, src | 0 <= n <= VLAN_MAX_DEPTH && Carries(frame, n, src) ::
                  Canonical(src) && HasRow(s'.bans, src))
            && forall n, src | 0 <= n <= VLAN_MAX_DEPTH && Carries(frame, n, src) && Whitelisted(s', src) ::
                 !Blocked(frame, s'.kernel.v4, s'.kernel.v6)
  {
    var s' := Run(s, cfg, tr);
    forall n, src | 0 <= n <= VLAN_MAX_DEPTH && Carries(frame, n, src)
      ensures Blocked(frame, s'.kernel.v4, s'.kernel.v6) <==> Canonical(src) && HasRow(s'.bans, src)
      ensures Whitelisted(s', src) ==> !Blocked(frame, s'.kernel.v4, s'.kernel.v6)
    {
      QuietVerdictOf(s, cfg, tr, frame, n, src);
    }
  }

  lemma QuietVerdictOf(s: Sys, cfg: Config, tr: Trace, frame: seq<Byte>, n: nat, src: IP)
    requires Inv(s, cfg, NO_DRIFT) && !cfg.standalone && QuietRun(s, cfg, tr) && Run(s, cfg, tr).attached
    requires n <= VLAN_MAX_DEPTH && Carries(frame, n, src)
    ensures var s' := Run(s, cfg, tr);
            && (Blocked(frame, s'.kernel.v4, s'.kernel.v6) <==> Canonical(src) && HasRow(s'.bans, src))
            && (Whitelisted(s', src) ==> !Blocked(frame, s'.kernel.v4, s'.kernel.v6))
  {
    QuietRunStaysInAgreement(s, cfg, tr);
    VerdictFollowsRows(s, cfg, tr, NO_DRIFT, frame, n, src);
    if Canonical(src) {
      assert !(HasRow(Run(s, cfg, tr).bans, src) && Whitelisted(Run(s, cfg, tr), src));
    }
  }
}
