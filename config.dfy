/** The program's configuration: the key/value rows of the config table,
    four of which are required, and the AES key derived from the password. */
module Config {
  import opened Common

  const Region: string := "region"
  const Vault: string := "vault"
  const Password: string := "password"
  const DocRoot: string := "basedir"

  /** The keys NewConfig demands, in the order it checks them. */
  const RequiredKeys: seq<string> := [Region, Vault, Password, DocRoot]

  /** A handle on the archive service: account "-", a vault and a region. */
  datatype Manager = Manager(account: string, vault: string, region: string)

  /** The map the rows loop builds: each row overwrites what an earlier row
      with the same key left. */
  function Settings(rows: seq<(string, string)>): map<string, string>
    decreases |rows|
  {
    if rows == [] then map[]
    else Settings(rows[..|rows| - 1])[rows[|rows| - 1].0 := rows[|rows| - 1].1]
  }

  /** A key is set exactly when some row carries it. */
  lemma {:induction false} SettingsKeys(rows: seq<(string, string)>, k: string)
    ensures k in Settings(rows) <==> exists i :: 0 <= i < |rows| && rows[i].0 == k
    decreases |rows|
  {
    if rows != [] {
      var init := rows[..|rows| - 1];
      SettingsKeys(init, k);
      if k in Settings(init) {
        var i :| 0 <= i < |init| && init[i].0 == k;
        assert rows[i].0 == k;
      }
      if exists i :: 0 <= i < |rows| && rows[i].0 == k {
        var i :| 0 <= i < |rows| && rows[i].0 == k;
        if i < |rows| - 1 {
          assert init[i].0 == k;
        }
      }
    }
  }

  /** When a key repeats, the value of its last row is the one kept. */
  lemma {:induction false} LaterRowWins(rows: seq<(string, string)>, i: int)
    requires 0 <= i < |rows|
    requires forall j :: i < j < |rows| ==> rows[j].0 != rows[i].0
    ensures rows[i].0 in Settings(rows) && Settings(rows)[rows[i].0] == rows[i].1
    decreases |rows|
  {
    if i < |rows| - 1 {
      LaterRowWins(rows[..|rows| - 1], i);
    }
  }

  /** The rows loop of NewConfig. */
  method ReadSettings(rows: seq<(string, string)>) returns (cfgMap: map<string, string>)
    ensures cfgMap == Settings(rows)
  {
    cfgMap := map[];
    var i := 0;
    while i < |rows|
      invariant 0 <= i <= |rows|
      invariant cfgMap == Settings(rows[..i])
    {
      assert rows[..i + 1][..i] == rows[..i];
      cfgMap := cfgMap[rows[i].0 := rows[i].1];
      i := i + 1;
    }
    assert rows[..|rows|] == rows;
  }

  /** The first of `keys` the map lacks. */
  function FirstMissing(m: map<string, string>, keys: seq<string>): (r: Option<string>)
    ensures r.None? <==> forall i :: 0 <= i < |keys| ==> keys[i] in m
    ensures r.Some? ==> exists i :: 0 <= i < |keys| && keys[i] == r.value && keys[i] !in m
                                    && forall j :: 0 <= j < i ==> keys[j] in m
    decreases |keys|
  {
    if keys == [] then None
    else if keys[0] !in m then Some(keys[0])
    else
      var r := FirstMissing(m, keys[1..]);
      assert forall i :: 1 <= i < |keys| ==> keys[i] == keys[1..][i - 1];
      r
  }

  /** The required-key loop: the first key that is absent is the error. */
  method CheckRequired(m: map<string, string>) returns (o: Outcome)
    ensures o.Pass? <==> FirstMissing(m, RequiredKeys).None?
    ensures o.Fail? ==> o.error == MissingParam(FirstMissing(m, RequiredKeys).value)
  {
    var i := 0;
    while i < |RequiredKeys|
      invariant 0 <= i <= |RequiredKeys|
      invariant forall j :: 0 <= j < i ==> RequiredKeys[j] in m
    {
      if RequiredKeys[i] !in m {
        ghost var r := FirstMissing(m, RequiredKeys);
        ghost var k :| 0 <= k < |RequiredKeys| && RequiredKeys[k] == r.value && RequiredKeys[k] !in m
                       && forall j :: 0 <= j < k ==> RequiredKeys[j] in m;
        assert k == i;
        return Fail(MissingParam(RequiredKeys[i]));
      }
      i := i + 1;
    }
    o := Pass;
  }

  /** getKey: the SHA-256 sum of the password's bytes; an empty password is
      refused. */
  function GetKey(prims: Primitives, plain: string): (r: Result<seq<byte>>)
    ensures r.Err? <==> plain == ""
    ensures r.Err? ==> r.error == EmptyPassword
    ensures r.Ok? ==> |r.value| == 32 && r.value == prims.sha256(prims.utf8(plain))
  {
    if plain == "" then Err(EmptyPassword) else Ok(prims.sha256(prims.utf8(plain)))
  }

  class Config {
    const region: string
    const vaultName: string
    const docRoot: string
    const key: seq<byte>
    /** The cached manager; nothing ever stores one. */
    var glacierManager: Option<Manager>

    constructor (region0: string, vault0: string, docRoot0: string, key0: seq<byte>)
      ensures region == region0 && vaultName == vault0 && docRoot == docRoot0 && key == key0
      ensures glacierManager == None
    {
      region, vaultName, docRoot, key := region0, vault0, docRoot0, key0;
      glacierManager := None;
    }

    /** GlacierManager: the cached manager if there is one, otherwise a new
        one for account "-" and this vault and region. Creating one opens an
        AWS session, which fails with `session` when that is `Some`. The
        cache is never filled. */
    method GlacierManager(session: Option<Error>) returns (r: Result<Manager>)
      ensures r.Err? <==> ManagerFails(session)
      ensures r.Err? ==> r.error == session.value
      ensures r.Ok? && glacierManager.Some? ==> r.value == glacierManager.value
      ensures r.Ok? && glacierManager.None? ==> r.value.account == "-" && r.value.vault == vaultName && r.value.region == region
    {
      if glacierManager.Some? {
        return Ok(glacierManager.value);
      }
      if session.Some? {
        return Err(session.value);
      }
      r := Ok(Manager("-", vaultName, region));
    }

    /** Whether GlacierManager fails: only a new manager opens a session. */
    predicate ManagerFails(session: Option<Error>)
      reads this
    {
      glacierManager.None? && session.Some?
    }
  }

  /** NewConfig: read the rows (a failed query or scan is returned), check
      the required keys, derive the key. */
  method NewConfig(prims: Primitives, rows: Result<seq<(string, string)>>) returns (r: Result<Config>)
    ensures rows.Err? ==> r == Err(rows.error)
    ensures rows.Ok? && FirstMissing(Settings(rows.value), RequiredKeys).Some? ==>
              r == Err(MissingParam(FirstMissing(Settings(rows.value), RequiredKeys).value))
    ensures rows.Ok? && FirstMissing(Settings(rows.value), RequiredKeys).None? ==>
              var m := Settings(rows.value);
              && Region in m && Vault in m && Password in m && DocRoot in m
              && (m[Password] == "" ==> r == Err(EmptyPassword))
              && (m[Password] != "" ==>
                    r.Ok? && fresh(r.value)
                    && r.value.region == m[Region] && r.value.vaultName == m[Vault] && r.value.docRoot == m[DocRoot]
                    && r.value.key == prims.sha256(prims.utf8(m[Password]))
                    && r.value.glacierManager == None)
  {
    if rows.Err? {
      return Err(rows.error);
    }
    var cfgMap := ReadSettings(rows.value);
    var check := CheckRequired(cfgMap);
    if check.Fail? {
      return Err(check.error);
    }
    assert RequiredKeys[0] in cfgMap && RequiredKeys[1] in cfgMap && RequiredKeys[2] in cfgMap && RequiredKeys[3] in cfgMap;
    var k := GetKey(prims, cfgMap[Password]);
    if k.Err? {
      return Err(k.error);
    }
    var c := new Config(cfgMap[Region], cfgMap[Vault], cfgMap[DocRoot], k.value);
    r := Ok(c);
  }
}
