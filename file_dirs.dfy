/**
 * The upload-directory table read from the source system: every fetched
 * `(id, url, server_path)` row stores `url` under `id` in `$file_dirs`, so a
 * later row with an id already present overwrites the earlier url.
 */
module FileDirs {

  /** One row of `SELECT id, url, server_path FROM exp_upload_prefs`. */
  datatype UploadPref = UploadPref(id: int, url: string, serverPath: string)

  /** The mapping after the rows `rows` have been fetched in order. */
  function Dirs(rows: seq<UploadPref>): map<int, string>
    decreases |rows|
  {
    if rows == [] then map[]
    else Dirs(rows[..|rows| - 1])[rows[|rows| - 1].id := rows[|rows| - 1].url]
  }

  /** The fetch loop, filling the array in place. */
  method BuildFileDirs(rows: seq<UploadPref>) returns (dirs: map<int, string>)
    ensures dirs == Dirs(rows)
  {
    dirs := map[];
    var i := 0;
    while i < |rows|
      invariant 0 <= i <= |rows|
      invariant dirs == Dirs(rows[..i])
    {
      assert rows[..i + 1][..i] == rows[..i];
      dirs := dirs[rows[i].id := rows[i].url];
      i := i + 1;
    }
    assert rows[..|rows|] == rows;
  }

  /** The ids of the mapping are exactly the ids of the fetched rows. */
  lemma {:induction false} DirsKeys(rows: seq<UploadPref>)
    ensures Dirs(rows).Keys == set k | 0 <= k < |rows| :: rows[k].id
    decreases |rows|
  {
    if rows != [] {
      var n := |rows| - 1;
      DirsKeys(rows[..n]);
      assert forall k :: 0 <= k < n ==> rows[..n][k] == rows[k];
      assert (set k | 0 <= k < |rows| :: rows[k].id)
          == (set k | 0 <= k < n :: rows[..n][k].id) + {rows[n].id};
    }
  }

  /** Each id maps to the url of the LAST fetched row that carries that id. */
  lemma {:induction false} DirsLastWins(rows: seq<UploadPref>, k: nat)
    requires k < |rows|
    requires forall j :: k < j < |rows| ==> rows[j].id != rows[k].id
    ensures rows[k].id in Dirs(rows) && Dirs(rows)[rows[k].id] == rows[k].url
    decreases |rows|
  {
    var n := |rows| - 1;
    if k < n {
      assert forall j :: k < j < n ==> rows[..n][j] == rows[j];
      DirsLastWins(rows[..n], k);
    }
  }

  /** `server_path` is fetched but never used: only ids and urls decide the mapping. */
  lemma {:induction false} DirsIgnoreServerPath(a: seq<UploadPref>, b: seq<UploadPref>)
    requires |a| == |b|
    requires forall k :: 0 <= k < |a| ==> a[k].id == b[k].id && a[k].url == b[k].url
    ensures Dirs(a) == Dirs(b)
    decreases |a|
  {
    if a != [] {
      var n := |a| - 1;
      DirsIgnoreServerPath(a[..n], b[..n]);
    }
  }
}
