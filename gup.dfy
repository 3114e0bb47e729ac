/** The gup command: register the files named on the command line, each
    relative to the current directory. */
module Gup {
  import opened Common
  import opened Paths
  import opened Disk
  import opened Crypt
  import opened Catalog
  import opened Upload
  import opened Regist
  import opened Config
  import opened Sync

  /** Gup: RegisterToArchive for every file, with "." as the base path. A
      failure is reported and the next file is tried; the error the command
      returns is that of the last file (nil when it succeeded). A panic or a
      hang still ends the command at once. `results` holds what each
      registration that ran returned, and `tables` the rows, IVs and random
      pool before the first and after each of them. */
  method Gup(prims: Primitives, cfg: Config, fs: FileSystem, cat: Catalog, rng: Entropy, files: seq<string>,
             sv: Services)
    returns (o: Outcome, ghost results: seq<Outcome>, ghost tables: seq<Tables>)
    modifies fs, cat, rng
    requires cat.Valid() && Ready(sv)
    ensures cat.Valid()
    ensures fs.dirs == old(fs.dirs)
    ensures cat.requests == old(cat.requests) && cat.comments == old(cat.comments)
    ensures |cat.entries| >= |old(cat.entries)| && cat.entries[..|old(cat.entries)|] == old(cat.entries)
    ensures 0 < |results| <= |files| || (results == [] && files == [])
    ensures forall j :: 0 <= j < |results| - 1 ==> !(results[j].Fail? && Fatal(results[j].error))
    ensures |results| < |files| ==> results[|results| - 1].Fail? && Fatal(results[|results| - 1].error)
    ensures o == if files == [] then Pass else results[|results| - 1]
    ensures files == [] ==> unchanged(fs, cat, rng)
    ensures |tables| == |results| + 1
    ensures tables[0] == Tables(old(cat.entries), old(cat.ivs), old(rng.pool))
    ensures tables[|results|] == Tables(cat.entries, cat.ivs, rng.pool)
    ensures forall j :: 0 <= j < |results| ==> RegisteredOnce(files[j], results[j], tables[j], tables[j + 1])
  {
    o := Pass;
    results := [];
    tables := [Tables(cat.entries, cat.ivs, rng.pool)];
    var i := 0;
    while i < |files|
      invariant 0 <= i <= |files| && |results| == i
      invariant cat.Valid()
      invariant fs.dirs == old(fs.dirs)
      invariant cat.requests == old(cat.requests) && cat.comments == old(cat.comments)
      invariant |cat.entries| >= |old(cat.entries)| && cat.entries[..|old(cat.entries)|] == old(cat.entries)
      invariant forall j :: 0 <= j < i ==> !(results[j].Fail? && Fatal(results[j].error))
      invariant o == if i == 0 then Pass else results[i - 1]
      invariant i == 0 ==> unchanged(fs, cat, rng)
      invariant |tables| == i + 1
      invariant tables[0] == Tables(old(cat.entries), old(cat.ivs), old(rng.pool))
      invariant tables[i] == Tables(cat.entries, cat.ivs, rng.pool)
      invariant forall j :: 0 <= j < i ==> RegisteredOnce(files[j], results[j], tables[j], tables[j + 1])
    {
      var encFilePath := Join(".", files[i]) + ".enc";
      var calls;
      ghost var before := cat.entries;
      o, calls := RegisterKeepingRows(prims, fs, cat, rng, ".", files[i], cfg.key,
                                      sv.upload(encFilePath), sv.writeFails(encFilePath));
      assert cat.entries[..|old(cat.entries)|] == cat.entries[..|before|][..|old(cat.entries)|];
      RegistrationsGrow(files, results, tables, o, Tables(cat.entries, cat.ivs, rng.pool));
      results := results + [o];
      tables := tables + [Tables(cat.entries, cat.ivs, rng.pool)];
      if o.Fail? && Fatal(o.error) {
        return;
      }
      i := i + 1;
    }
  }

  /** One more registration, from the last tables, keeps every earlier one. */
  lemma RegistrationsGrow(files: seq<string>, results: seq<Outcome>, tables: seq<Tables>, o: Outcome, t: Tables)
    requires |tables| == |results| + 1 && |results| < |files|
    requires forall j :: 0 <= j < |results| ==> RegisteredOnce(files[j], results[j], tables[j], tables[j + 1])
    requires RegisteredOnce(files[|results|], o, tables[|results|], t)
    ensures var rs, ts := results + [o], tables + [t];
            forall j :: 0 <= j < |rs| ==> RegisteredOnce(files[j], rs[j], ts[j], ts[j + 1])
  {
    var rs, ts := results + [o], tables + [t];
    forall j | 0 <= j < |rs|
      ensures RegisteredOnce(files[j], rs[j], ts[j], ts[j + 1])
    {
      if j < |results| {
        assert rs[j] == results[j] && ts[j] == tables[j] && ts[j + 1] == tables[j + 1];
      } else {
        assert rs[j] == o && ts[j] == tables[|results|] && ts[j + 1] == t;
      }
    }
  }
}
