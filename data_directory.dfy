/**
 * Where the data files live (src/context/data_directory.rs): the file name
 * for each attempt number, the search for the first free one, and the
 * choice of the most recently modified data file. The file system is
 * reached only through the parameters `pathExists` (does a path exist) and
 * `modified` (a file's modification time, or none when it cannot be read).
 */
module DataDirectories {
  import opened Wrappers
  import opened Text

  datatype DataDirectory = DataDirectory(path: string)

  /** `DataFile::new(path)`: a handle on a path, nothing created. */
  datatype DataFile = DataFile(path: string)

  /** The `io::Error` of a failed search or an unreadable file. */
  datatype IoError = IoError

  /** `MAX_ATTEMPTS` */
  const MaxAttempts: nat := 1000

  /** `PathBuf::join` with a relative name: a '/' between, unless the directory is empty or already ends in one. */
  function JoinPath(directory: string, name: string): (r: string)
    ensures |r| >= |name| && r[|r| - |name|..] == name
  {
    if directory == [] then name
    else if directory[|directory| - 1] == '/' then directory + name
    else directory + "/" + name
  }

  /** The file name for attempt `count`: "data.<app>.json" for 0, "data.<count>.<app>.json" after. */
  function FileName(count: nat, appName: string): string {
    if count == 0 then "data." + appName + ".json"
    else "data." + NatToDigits(count) + "." + appName + ".json"
  }

  /** `build_data_path` */
  function BuildDataPath(d: DataDirectory, count: nat, appName: string): string {
    JoinPath(d.path, FileName(count, appName))
  }

  /** Different attempts name different files, so each attempt probes a new path. */
  lemma BuildDataPathInjective(d: DataDirectory, a: nat, b: nat, appName: string)
    requires a != b
    ensures BuildDataPath(d, a, appName) != BuildDataPath(d, b, appName)
  {
    var x, y := FileName(a, appName), FileName(b, appName);
    if BuildDataPath(d, a, appName) == BuildDataPath(d, b, appName) {
      JoinPathInjective(d.path, x, y);
      FileNameInjective(a, b, appName);
    }
  }

  lemma JoinPathInjective(directory: string, x: string, y: string)
    requires JoinPath(directory, x) == JoinPath(directory, y)
    ensures x == y
  {
    var r := JoinPath(directory, x);
    assert |x| == |y|;
    assert x == r[|r| - |x|..];
  }

  lemma FileNameInjective(a: nat, b: nat, appName: string)
    requires FileName(a, appName) == FileName(b, appName)
    ensures a == b
  {
    var s := FileName(a, appName);
    if a != 0 && b != 0 {
      var x, y := NatToDigits(a), NatToDigits(b);
      assert |x| == |y|;
      assert s[5..5 + |x|] == x;
      assert s[5..5 + |y|] == y;
      NatToDigitsInjective(a, b);
    }
  }

  /**
   * `generate_unique_file_path`: try the attempts 0, 1, 2, ... in turn and
   * return the first path that does not exist; fail after 1000 attempts.
   */
  method GenerateUniqueFilePath(d: DataDirectory, appName: string, pathExists: string -> bool) returns (r: Result<string, IoError>)
    ensures r.Ok? ==> !pathExists(r.value) && exists n ::
      (0 <= n < MaxAttempts && r.value == BuildDataPath(d, n, appName) && AllTaken(d, appName, pathExists, n))
    ensures r.Err? <==> AllTaken(d, appName, pathExists, MaxAttempts)
  {
    var count := 0;
    while count < MaxAttempts
      invariant 0 <= count <= MaxAttempts
      invariant AllTaken(d, appName, pathExists, count)
    {
      var filePath := BuildDataPath(d, count, appName);
      if !pathExists(filePath) {
        return Ok(filePath);
      }
      AllTakenStep(d, appName, pathExists, count);
      count := count + 1;
    }
    return Err(IoError);
  }

  lemma AllTakenStep(d: DataDirectory, appName: string, pathExists: string -> bool, count: nat)
    requires AllTaken(d, appName, pathExists, count) && pathExists(BuildDataPath(d, count, appName))
    ensures AllTaken(d, appName, pathExists, count + 1)
  {
  }

  /** Every attempt below `count` names an existing path. */
  predicate AllTaken(d: DataDirectory, appName: string, pathExists: string -> bool, count: nat) {
    forall m :: 0 <= m < count ==> pathExists(BuildDataPath(d, m, appName))
  }

  /** The free path is the first free attempt: every earlier attempt names an existing, different file. */
  lemma UniquePathIsFirstFree(d: DataDirectory, appName: string, pathExists: string -> bool, n: nat)
    requires n < MaxAttempts && !pathExists(BuildDataPath(d, n, appName))
    requires AllTaken(d, appName, pathExists, n)
    ensures forall m :: 0 <= m < n ==> BuildDataPath(d, m, appName) != BuildDataPath(d, n, appName)
    ensures forall k :: 0 <= k < MaxAttempts && !pathExists(BuildDataPath(d, k, appName)) ==> n <= k
  {
    forall m | 0 <= m < n ensures BuildDataPath(d, m, appName) != BuildDataPath(d, n, appName) {
      BuildDataPathInjective(d, m, n, appName);
    }
  }

  /** `generate_unique_file_path_or_default`: on failure, the attempt-0 name. */
  method GenerateUniqueFilePathOrDefault(d: DataDirectory, appName: string, pathExists: string -> bool) returns (p: string)
    ensures AllTaken(d, appName, pathExists, MaxAttempts) ==> p == BuildDataPath(d, 0, appName)
    ensures !AllTaken(d, appName, pathExists, MaxAttempts) ==> !pathExists(p) && exists n ::
      (0 <= n < MaxAttempts && p == BuildDataPath(d, n, appName) && AllTaken(d, appName, pathExists, n))
  {
    var r := GenerateUniqueFilePath(d, appName, pathExists);
    p := if r.Ok? then r.value else JoinPath(d.path, "data." + appName + ".json");
  }

  /** `create_new_data_file`: a handle on the generated path; nothing is created. */
  method CreateNewDataFile(d: DataDirectory, appName: string, pathExists: string -> bool) returns (r: Result<DataFile, IoError>)
    ensures r.Ok? ==> !pathExists(r.value.path) && exists n ::
      (0 <= n < MaxAttempts && r.value.path == BuildDataPath(d, n, appName) && AllTaken(d, appName, pathExists, n))
    ensures r.Err? <==> AllTaken(d, appName, pathExists, MaxAttempts)
  {
    var filePath := GenerateUniqueFilePath(d, appName, pathExists);
    if filePath.Err? {
      return Err(filePath.error);
    }
    return Ok(DataFile(filePath.value));
  }

  /**
   * `find_most_recent_data_file` over the valid files: an unreadable
   * modification time fails the whole search; otherwise the file with the
   * greatest time, the first of them on a tie (the comparison is strict),
   * or none when there are no files.
   */
  method FindMostRecentDataFile(files: seq<DataFile>, modified: DataFile -> Option<int>) returns (r: Result<Option<DataFile>, IoError>)
    ensures r.Err? <==> exists j :: 0 <= j < |files| && modified(files[j]).None?
    ensures r.Ok? ==> (r.value.None? <==> files == [])
    ensures r.Ok? && r.value.Some? ==> exists k ::
      (0 <= k < |files| && files[k] == r.value.value
       && (forall j :: 0 <= j < |files| ==> modified(files[j]).value <= modified(files[k]).value)
       && (forall j :: 0 <= j < k ==> modified(files[j]).value < modified(files[k]).value))
  {
    var latest: Option<(DataFile, int)> := None;
    ghost var at: nat := 0;
    for i := 0 to |files|
      invariant forall j :: 0 <= j < i ==> modified(files[j]).Some?
      invariant latest.None? <==> i == 0
      invariant latest.Some? ==> at < i && latest.value.0 == files[at] && latest.value.1 == modified(files[at]).value
      invariant latest.Some? ==> forall j :: 0 <= j < i ==> modified(files[j]).value <= latest.value.1
      invariant latest.Some? ==> forall j :: 0 <= j < at ==> modified(files[j]).value < latest.value.1
    {
      var time := modified(files[i]);
      if time.None? {
        return Err(IoError);
      }
      match latest {
        case None =>
          latest := Some((files[i], time.value));
          at := i;
        case Some((_, lastModified)) =>
          if time.value > lastModified {
            latest := Some((files[i], time.value));
            at := i;
          }
      }
    }
    if latest.None? {
      return Ok(None);
    }
    return Ok(Some(latest.value.0));
  }

  /** Only one file is both the latest and earlier than every other latest one: the choice is determined. */
  lemma MostRecentIsUnique(files: seq<DataFile>, times: seq<int>, k1: nat, k2: nat)
    requires |times| == |files| && k1 < |files| && k2 < |files|
    requires forall j :: 0 <= j < |files| ==> times[j] <= times[k1] && times[j] <= times[k2]
    requires forall j :: 0 <= j < k1 ==> times[j] < times[k1]
    requires forall j :: 0 <= j < k2 ==> times[j] < times[k2]
    ensures k1 == k2
  {
    var latest1, latest2 := times[k1], times[k2];
    assert latest1 == latest2;
  }
}
