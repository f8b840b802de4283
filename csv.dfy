/**
 * The delimited files behind the stores, one level above the bytes: a file is its list of
 * rows (the first one the header), a row is its list of cells, and the file system is a map
 * from a path to the rows of the file stored there.
 */
module CsvFiles {
  import opened Text

  type Row = seq<string>

  /** The regular files present, by path. A path not in the map is not a file. */
  type FileSystem = map<string, seq<Row>>

  /** A diagnostic printed while loading; `line` is 1-based with the header as line 1. */
  datatype Warning =
    | WrongColumnCount(line: nat)
    | DuplicateId(line: nat, id: int)
    | Unparsable(line: nat)

  /** The position of the last `c` in `s`, or -1. */
  function LastIndexOf(s: string, c: char): (r: int)
    ensures -1 <= r < |s|
    ensures r >= 0 ==> s[r] == c
    ensures forall k :: r < k < |s| ==> s[k] != c
  {
    if s == [] then -1
    else if s[|s| - 1] == c then |s| - 1
    else LastIndexOf(s[..|s| - 1], c)
  }

  /** The last component of a path (what follows the last `/`). */
  function BaseName(p: string): string
  {
    p[LastIndexOf(p, '/') + 1..]
  }

  /** `Path.suffix`: from the last `.` of the last component, provided that dot is neither
      its first nor its last character; otherwise empty. */
  function Suffix(p: string): string
  {
    var n := BaseName(p);
    var i := LastIndexOf(n, '.');
    if 0 < i < |n| - 1 then n[i..] else ""
  }

  /** `Path(p) / name` */
  function Join(p: string, name: string): string
  {
    if p == "" then name else p + "/" + name
  }

  /** A path whose suffix is `.csv` in any letter case is used as given; any other path is
      taken as a directory that receives `defaultName`. */
  function ResolvePath(p: string, defaultName: string): string
  {
    if Lower(Suffix(p)) == ".csv" then p else Join(p, defaultName)
  }

  lemma BaseNameJoin(p: string, name: string)
    requires forall k :: 0 <= k < |name| ==> name[k] != '/'
    ensures BaseName(Join(p, name)) == name
  {
    if p != "" {
      var s := p + "/" + name;
      var i := LastIndexOf(s, '/');
      assert s[|p|] == '/';
      assert forall k :: |p| < k < |s| ==> s[k] == name[k - |p| - 1];
      assert i == |p|;
      assert s[i + 1..] == name;
    } else {
      var i := LastIndexOf(name, '/');
      assert i == -1;
    }
  }

  /** A plain stem followed by `.csv` is a file name with the `.csv` suffix. */
  lemma CsvName(stem: string)
    requires stem != []
    requires forall k :: 0 <= k < |stem| ==> stem[k] != '/' && stem[k] != '.'
    ensures forall k :: 0 <= k < |stem + ".csv"| ==> (stem + ".csv")[k] != '/'
    ensures Lower(Suffix(stem + ".csv")) == ".csv"
  {
    var n := stem + ".csv";
    assert forall k :: |stem| <= k < |n| ==> n[k] == ".csv"[k - |stem|];
    assert LastIndexOf(n, '/') == -1;
    assert BaseName(n) == n;
    var i := LastIndexOf(n, '.');
    assert n[|stem|] == '.' && n[|stem| + 1] == 'c' && n[|stem| + 2] == 's' && n[|stem| + 3] == 'v';
    assert i == |stem|;
    assert Suffix(n) == ".csv";
  }

  /** A file name placed in a directory keeps its suffix. */
  lemma SuffixJoin(p: string, name: string)
    requires forall k :: 0 <= k < |name| ==> name[k] != '/'
    ensures Suffix(Join(p, name)) == Suffix(name)
  {
    BaseNameJoin(p, name);
    BaseNameJoin("", name);
  }

  /** Whatever the caller passes, the codec writes to a path with a `.csv` suffix, provided
      the default name is a plain file name with that suffix. */
  lemma ResolvedPathIsCsv(p: string, defaultName: string)
    requires forall k :: 0 <= k < |defaultName| ==> defaultName[k] != '/'
    requires Lower(Suffix(defaultName)) == ".csv"
    ensures Lower(Suffix(ResolvePath(p, defaultName))) == ".csv"
  {
    if Lower(Suffix(p)) != ".csv" {
      SuffixJoin(p, defaultName);
    }
  }

  /** Resolving an already resolved path changes nothing. */
  lemma ResolvePathIdempotent(p: string, defaultName: string)
    requires forall k :: 0 <= k < |defaultName| ==> defaultName[k] != '/'
    requires Lower(Suffix(defaultName)) == ".csv"
    ensures ResolvePath(ResolvePath(p, defaultName), defaultName) == ResolvePath(p, defaultName)
  {
    ResolvedPathIsCsv(p, defaultName);
  }

  /** Writing `rows` to `path`: in append mode onto an existing file they follow its
      current rows; otherwise the file is (re)written as the header followed by the rows.
      No other file changes. */
  function WriteCsv(fs: FileSystem, path: string, append: bool, header: Row, rows: seq<Row>)
    : (r: FileSystem)
    ensures r.Keys == fs.Keys + {path}
    ensures forall q :: q in fs && q != path ==> r[q] == fs[q]
    ensures append && path in fs ==> r[path] == fs[path] + rows
    ensures !(append && path in fs) ==> r[path] == [header] + rows
  {
    fs[path := if append && path in fs then fs[path] + rows else [header] + rows]
  }
}
