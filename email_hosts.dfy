/** utils.py's `convert_edomain_to_imap`: the IMAP server for an e-mail
    domain, looked up in a table of hosts and their domains that the caller
    may extend. */
module EmailHosts {
  import opened Wrappers

  /** The dict from IMAP host to its list of domains, in insertion order. */
  type Table = seq<(string, seq<string>)>

  function Hosts(table: Table): set<string>
  {
    set i | 0 <= i < |table| :: table[i].0
  }

  predicate DistinctHosts(table: Table)
  {
    forall i, j :: 0 <= i < j < |table| ==> table[i].0 != table[j].0
  }

  /** The table the function starts from. */
  const DefaultTable: Table := [
    ("imap.yandex.ru", ["yandex.ru"]),
    ("imap.mail.ru", ["mail.ru", "bk.ru", "list.ru", "inbox.ru", "mail.ua"]),
    ("imap.rambler.ru", ["rambler.ru", "lenta.ru", "autorambler.ru", "myrambler.ru", "ro.ru", "rambler.ua"]),
    ("imap.gmail.com", ["gmail.com"]),
    ("imap.mail.yahoo.com", ["yahoo.com"]),
    ("imap-mail.outlook.com", ["outlook.com", "hotmail.com"]),
    ("imap.aol.com", ["aol.com"])
  ]

  /** One entry of `additional_hosts`: each domain is appended to the
      host's list; for a host not in the table the first append raises
      KeyError, and the handler stores the caller's list as a new entry at
      the end. With no domains nothing is appended, nothing raises, and an
      unknown host is not added. */
  function AddHost(table: Table, host: string, domains: seq<string>): (r: Table)
  {
    if domains == [] then table
    else if host in Hosts(table) then
      seq(|table|, i requires 0 <= i < |table| =>
        if table[i].0 == host then (host, table[i].1 + domains) else table[i])
    else table + [(host, domains)]
  }

  /** The table after the first loop, which adds the entries of
      `additional_hosts` in order. */
  function Extend(table: Table, additional: seq<(string, seq<string>)>): Table
  {
    if additional == [] then table
    else
      var last := additional[|additional| - 1];
      AddHost(Extend(table, additional[..|additional| - 1]), last.0, last.1)
  }

  /** The second loop as written: the first host whose list holds the
      domain; when none does, the loop variable still holds the last host
      iterated, and that is returned (None only for an empty table). */
  function LookupAsWritten(table: Table, domain: string): Option<string>
  {
    if table == [] then None
    else if domain in table[0].1 then Some(table[0].0)
    else if |table| == 1 then Some(table[0].0)
    else LookupAsWritten(table[1..], domain)
  }

  /** The lookup as evidently intended by `host = None`: the first host
      whose list holds the domain, and None when no list does. */
  function HostFor(table: Table, domain: string): (r: Option<string>)
    ensures r.Some? ==> r.value in Hosts(table)
  {
    if table == [] then None
    else if domain in table[0].1 then Some(table[0].0)
    else
      var r := HostFor(table[1..], domain);
      assert r.Some? ==> r.value in Hosts(table) by {
        if r.Some? {
          var i :| 0 <= i < |table[1..]| && table[1..][i].0 == r.value;
          assert table[i + 1].0 == r.value;
        }
      }
      r
  }

  /** `convert_edomain_to_imap(email_domain, additional_hosts)`. */
  method ConvertEdomainToImap(emailDomain: string, additionalHosts: seq<(string, seq<string>)>)
    returns (host: Option<string>)
    ensures host == LookupAsWritten(Extend(DefaultTable, additionalHosts), emailDomain)
  {
    var table := DefaultTable;
    var i := 0;
    while i < |additionalHosts|
      invariant i <= |additionalHosts|
      invariant table == Extend(DefaultTable, additionalHosts[..i])
    {
      assert additionalHosts[..i + 1][..i] == additionalHosts[..i];
      var (imapHost, domains) := additionalHosts[i];
      if domains != [] {
        if imapHost in Hosts(table) {
          table := seq(|table|, k requires 0 <= k < |table| =>
            if table[k].0 == imapHost then (imapHost, table[k].1 + domains) else table[k]);
        } else {
          table := table + [(imapHost, domains)];
        }
      }
      i := i + 1;
    }
    assert additionalHosts[..i] == additionalHosts;
    host := None;
    var j := 0;
    while j < |table|
      invariant j <= |table|
      invariant if j == 0 then host.None? else host == Some(table[j - 1].0)
      invariant j < |table| ==> LookupAsWritten(table, emailDomain) == LookupAsWritten(table[j..], emailDomain)
      invariant 0 < j == |table| ==> LookupAsWritten(table, emailDomain) == host
    {
      assert table[j..][1..] == table[j + 1..];
      host := Some(table[j].0);
      if emailDomain in table[j].1 {
        return;
      }
      j := j + 1;
    }
  }

  /** A listed domain gives the first host, in table order, whose list
      holds it. */
  lemma {:induction false} LookupFindsFirst(table: Table, domain: string, i: nat)
    requires i < |table| && domain in table[i].1
    requires forall j :: 0 <= j < i ==> domain !in table[j].1
    ensures LookupAsWritten(table, domain) == Some(table[i].0)
    ensures HostFor(table, domain) == Some(table[i].0)
    decreases i
  {
    if i > 0 {
      LookupFindsFirst(table[1..], domain, i - 1);
    }
  }

  /** A domain no list holds gives the last host of a non-empty table. */
  lemma {:induction false} UnknownDomainFallsThrough(table: Table, domain: string)
    requires table != [] && forall j :: 0 <= j < |table| ==> domain !in table[j].1
    ensures LookupAsWritten(table, domain) == Some(table[|table| - 1].0)
    decreases |table|
  {
    if |table| > 1 {
      UnknownDomainFallsThrough(table[1..], domain);
    }
  }

  /** The corrected lookup gives None exactly for a domain no list holds,
      and otherwise a host whose list holds it with no earlier list holding
      it. */
  lemma {:induction false} HostForMeaning(table: Table, domain: string)
    ensures HostFor(table, domain).None? <==> forall j :: 0 <= j < |table| ==> domain !in table[j].1
    ensures HostFor(table, domain).Some? ==>
      exists i :: 0 <= i < |table| && domain in table[i].1 && table[i].0 == HostFor(table, domain).value &&
        forall j :: 0 <= j < i ==> domain !in table[j].1
    decreases |table|
  {
    if table != [] && domain !in table[0].1 {
      HostForMeaning(table[1..], domain);
      assert forall j :: 1 <= j < |table| ==> table[j] == table[1..][j - 1];
      if HostFor(table, domain).Some? {
        var i :| 0 <= i < |table[1..]| && domain in table[1..][i].1 && table[1..][i].0 == HostFor(table, domain).value &&
          forall j :: 0 <= j < i ==> domain !in table[1..][j].1;
        assert domain in table[i + 1].1;
      }
    }
  }

  /** The two lookups agree on every listed domain and differ on every
      other one when the table is non-empty: the as-written function never
      returns None there. */
  lemma LookupAsWrittenVersusHostFor(table: Table, domain: string)
    requires table != []
    ensures HostFor(table, domain).Some? ==> LookupAsWritten(table, domain) == HostFor(table, domain)
    ensures HostFor(table, domain).None? ==> LookupAsWritten(table, domain) == Some(table[|table| - 1].0)
  {
    HostForMeaning(table, domain);
    if HostFor(table, domain).Some? {
      var i :| 0 <= i < |table| && domain in table[i].1 && table[i].0 == HostFor(table, domain).value &&
        forall j :: 0 <= j < i ==> domain !in table[j].1;
      LookupFindsFirst(table, domain, i);
    } else {
      UnknownDomainFallsThrough(table, domain);
    }
  }

  /** With no additional hosts, an unknown domain such as "example.org" is
      sent to the AOL server instead of giving None. */
  lemma UnknownDomainGetsAol()
    ensures LookupAsWritten(Extend(DefaultTable, []), "example.org") == Some("imap.aol.com")
    ensures HostFor(Extend(DefaultTable, []), "example.org") == None
  {
    var t := DefaultTable;
    assert forall j :: 0 <= j < |t| ==> "example.org" !in t[j].1;
    UnknownDomainFallsThrough(t, "example.org");
    HostForMeaning(t, "example.org");
  }

  /** Adding the entry of a known host appends its domains to that host's
      list in place; an unknown host with domains becomes the last entry;
      either way the hosts stay distinct and no other entry changes. */
  lemma AddHostMeaning(table: Table, host: string, domains: seq<string>)
    requires DistinctHosts(table) && domains != []
    ensures var r := AddHost(table, host, domains);
      DistinctHosts(r) && Hosts(r) == Hosts(table) + {host} &&
      (host in Hosts(table) ==>
        |r| == |table| &&
        forall i :: 0 <= i < |table| ==> r[i] == if table[i].0 == host then (host, table[i].1 + domains) else table[i]) &&
      (host !in Hosts(table) ==> r == table + [(host, domains)])
  {
    var r := AddHost(table, host, domains);
    if host in Hosts(table) {
      assert forall i :: 0 <= i < |table| ==> r[i].0 == table[i].0;
      forall x | x in Hosts(table)
        ensures x in Hosts(r)
      {
        var i :| 0 <= i < |table| && table[i].0 == x;
        assert r[i].0 == x;
      }
    } else {
      assert forall i :: 0 <= i < |table| ==> r[i] == table[i];
      assert r[|table|].0 == host;
      forall x | x in Hosts(table)
        ensures x in Hosts(r)
      {
        var i :| 0 <= i < |table| && table[i].0 == x;
        assert r[i].0 == x;
      }
    }
  }

  /** Extending the table never removes a domain from a host's list and
      never moves a host: each entry keeps its host and its list as a
      prefix. */
  lemma {:induction false} ExtendKeepsEntries(table: Table, additional: seq<(string, seq<string>)>)
    ensures var r := Extend(table, additional);
      |table| <= |r| && forall i :: 0 <= i < |table| ==> r[i].0 == table[i].0 && table[i].1 <= r[i].1
    decreases |additional|
  {
    if additional != [] {
      var prefix := additional[..|additional| - 1];
      ExtendKeepsEntries(table, prefix);
    }
  }

  /** The default table has distinct hosts and lists every domain under
      exactly one host. */
  lemma DefaultTableWellFormed()
    ensures DistinctHosts(DefaultTable) && |DefaultTable| == 7
    ensures forall i, j, d :: 0 <= i < j < |DefaultTable| && d in DefaultTable[i].1 ==> d !in DefaultTable[j].1
  {
  }

  /** A domain added to a known host resolves to that host. */
  lemma AddedDomainExample()
    ensures LookupAsWritten(Extend(DefaultTable, [("imap.gmail.com", ["googlemail.com"])]), "googlemail.com")
      == Some("imap.gmail.com")
  {
    var add: seq<(string, seq<string>)> := [("imap.gmail.com", ["googlemail.com"])];
    assert add[..0] == [];
    var t := Extend(DefaultTable, add);
    assert "imap.gmail.com" == DefaultTable[3].0;
    assert "imap.gmail.com" in Hosts(DefaultTable);
    assert t == AddHost(DefaultTable, "imap.gmail.com", ["googlemail.com"]);
    assert t[3] == ("imap.gmail.com", DefaultTable[3].1 + ["googlemail.com"]);
    assert "googlemail.com" in t[3].1;
    assert forall j :: 0 <= j < 3 ==> t[j] == DefaultTable[j];
    LookupFindsFirst(t, "googlemail.com", 3);
  }

  /** A new host resolves the domains given with it. */
  lemma NewHostExample()
    ensures LookupAsWritten(Extend(DefaultTable, [("imap.example.org", ["example.org"])]), "example.org")
      == Some("imap.example.org")
  {
    var add: seq<(string, seq<string>)> := [("imap.example.org", ["example.org"])];
    assert add[..0] == [];
    var t := Extend(DefaultTable, add);
    assert "imap.example.org" !in Hosts(DefaultTable);
    assert t == DefaultTable + [("imap.example.org", ["example.org"])];
    LookupFindsFirst(t, "example.org", 7);
  }

  /** A new host with an empty domain list leaves the table as it was. */
  lemma EmptyDomainsExample()
    ensures Extend(DefaultTable, [("imap.example.org", [])]) == DefaultTable
  {
    var add: seq<(string, seq<string>)> := [("imap.example.org", [])];
    assert add[..0] == [];
  }
}
