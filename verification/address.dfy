/**
 * `safe_addr`: a client address is shown to other users with everything
 * after its second `.`-separated field replaced by `xxx.xxx`.
 */
module Address {
  import opened Text

  /** `fields[:2]`. */
  function FirstTwo(fields: seq<string>): (r: seq<string>)
    ensures |r| == if |fields| >= 2 then 2 else |fields|
    ensures r == fields[..|r|]
  {
    if |fields| >= 2 then fields[..2] else fields
  }

  /** `'.'.join(ip_addr.split('.')[:2] + ['xxx', 'xxx'])`. */
  function SafeAddr(ip: string): string {
    Join(FirstTwo(Split(ip, '.')) + ["xxx", "xxx"], '.')
  }

  lemma XxxJoin()
    ensures Join(["xxx", "xxx"], '.') == "xxx.xxx"
  {
    assert ["xxx", "xxx"][1..] == ["xxx"];
  }

  /**
   * The fields of the redacted address are the first two fields of the
   * input (one, if it has no `.`) followed by `xxx` and `xxx`: no field
   * beyond the second survives.
   */
  lemma SafeAddrFields(ip: string)
    ensures Split(SafeAddr(ip), '.') == FirstTwo(Split(ip, '.')) + ["xxx", "xxx"]
  {
    var parts := FirstTwo(Split(ip, '.')) + ["xxx", "xxx"];
    forall i | 0 <= i < |parts| ensures '.' !in parts[i] {
      if i < |FirstTwo(Split(ip, '.'))| {
        assert parts[i] == Split(ip, '.')[i];
      }
    }
    SplitJoin(parts, '.');
  }

  /**
   * The redacted address is a prefix of the input, cut at a `.` or at its
   * end, followed by `.xxx.xxx`.
   */
  lemma SafeAddrKeepsPrefix(ip: string)
    ensures exists k :: 0 <= k <= |ip| && (k < |ip| ==> ip[k] == '.') && SafeAddr(ip) == ip[..k] + ".xxx.xxx"
  {
    var f := Split(ip, '.');
    JoinSplit(ip, '.');
    XxxJoin();
    JoinAppend(FirstTwo(f), ["xxx", "xxx"], '.');
    assert SafeAddr(ip) == Join(FirstTwo(f), '.') + ".xxx.xxx";
    if |f| <= 2 {
      assert FirstTwo(f) == f;
      assert ip[..|ip|] == ip;
    } else {
      assert f == f[..2] + f[2..];
      JoinAppend(f[..2], f[2..], '.');
      var k := |Join(f[..2], '.')|;
      assert ip == Join(f[..2], '.') + "." + Join(f[2..], '.');
      assert ip[..k] == Join(f[..2], '.') && ip[k] == '.';
    }
  }

  /** Redacting an address that has a `.` a second time changes nothing. */
  lemma SafeAddrIdempotent(ip: string)
    requires '.' in ip
    ensures SafeAddr(SafeAddr(ip)) == SafeAddr(ip)
  {
    SafeAddrFields(ip);
    var f := FirstTwo(Split(ip, '.'));
    assert FirstTwo(f + ["xxx", "xxx"]) == f;
  }

  /**
   * An address without a `.` is kept whole, so redacting it again appends
   * another `xxx`: idempotence needs the `.`.
   */
  lemma SafeAddrWithoutDot(ip: string)
    requires '.' !in ip
    ensures SafeAddr(ip) == ip + ".xxx.xxx"
    ensures SafeAddr(SafeAddr(ip)) == ip + ".xxx.xxx.xxx"
  {
    XxxJoin();
    JoinAppend([ip], ["xxx", "xxx"], '.');
    JoinSplit(ip, '.');
    assert Split(ip, '.') == [ip];
    assert SafeAddr(ip) == ip + ".xxx.xxx";
    SafeAddrFields(ip);
    var g := [ip] + ["xxx", "xxx"];
    assert FirstTwo(g) == [ip, "xxx"];
    assert Join([ip, "xxx"], '.') == ip + ".xxx" by {
      assert [ip, "xxx"][1..] == ["xxx"];
    }
    JoinAppend([ip, "xxx"], ["xxx", "xxx"], '.');
  }
}
