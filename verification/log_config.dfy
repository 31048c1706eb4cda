/** The global column-name configuration of event logs, the cache path of a
    downloadable log, and the guards of the downloadable-log class. The
    configuration is a dictionary from setting name to value; the class-level
    dictionary that the library mutates in place is modelled as a value that
    each operation takes and returns. */
module LogConfig {
  import opened Wrappers

  type Config = map<string, string>

  /** The five setting names. */
  const Keys: set<string> := {"case_id", "activity", "timestamp", "resource", "default_file_format"}

  /** The defaults: the XES attribute names and the parquet cache format. */
  const Defaults: Config := map[
    "case_id" := "case:concept:name",
    "activity" := "concept:name",
    "timestamp" := "time:timestamp",
    "resource" := "org:resource",
    "default_file_format" := ".parquet"]

  /** Exactly the five settings are present. */
  predicate WellFormed(c: Config)
  {
    c.Keys == Keys
  }

  // ---------------------------------------------------------------------
  // Reading

  /** The property getters. */
  function CaseId(c: Config): string
    requires WellFormed(c)
  {
    c["case_id"]
  }

  function Activity(c: Config): string
    requires WellFormed(c)
  {
    c["activity"]
  }

  function Timestamp(c: Config): string
    requires WellFormed(c)
  {
    c["timestamp"]
  }

  function Resource(c: Config): string
    requires WellFormed(c)
  {
    c["resource"]
  }

  function DefaultFileFormat(c: Config): string
    requires WellFormed(c)
  {
    c["default_file_format"]
  }

  /** `to_dict`: the five getters, by name. */
  function ToDict(c: Config): (r: map<string, string>)
    requires WellFormed(c)
    ensures r.Keys == Keys
  {
    map[
      "case_id" := CaseId(c),
      "activity" := Activity(c),
      "timestamp" := Timestamp(c),
      "resource" := Resource(c),
      "default_file_format" := DefaultFileFormat(c)]
  }

  /** The dictionary view reflects the current configuration exactly. */
  lemma ToDictIsConfig(c: Config)
    requires WellFormed(c)
    ensures ToDict(c) == c
  {
    var d := ToDict(c);
    assert forall k :: k in d ==> d[k] == c[k];
  }

  /** `get_global_config`: a copy of the configuration. Values are
      immutable here, so the copy is the configuration's own value and a
      caller changing its copy cannot reach the configuration. */
  function GetGlobalConfig(c: Config): (r: Config)
    ensures r.Keys == c.Keys && forall k :: k in r ==> r[k] == c[k]
  {
    map k | k in c :: c[k]
  }

  /** Changing a key of the copy leaves the configuration's values as they
      were: the configuration still answers with its own value. */
  lemma CopyIsDetached(c: Config, key: string, value: string)
    requires WellFormed(c)
    ensures WellFormed(GetGlobalConfig(c))
    ensures var copy := GetGlobalConfig(c)[key := value];
      copy[key] == value && ToDict(c) == c
  {
    ToDictIsConfig(c);
  }

  // ---------------------------------------------------------------------
  // Writing

  /** `set_global_config`: every argument given (not None) replaces its
      setting; the others stay. */
  function SetGlobalConfig(c: Config, caseId: Option<string>, activity: Option<string>,
                           timestamp: Option<string>, resource: Option<string>,
                           defaultFileFormat: Option<string>): (r: Config)
    requires WellFormed(c)
    ensures WellFormed(r)
    ensures CaseId(r) == if caseId.Some? then caseId.value else CaseId(c)
    ensures Activity(r) == if activity.Some? then activity.value else Activity(c)
    ensures Timestamp(r) == if timestamp.Some? then timestamp.value else Timestamp(c)
    ensures Resource(r) == if resource.Some? then resource.value else Resource(c)
    ensures DefaultFileFormat(r) == if defaultFileFormat.Some? then defaultFileFormat.value else DefaultFileFormat(c)
  {
    var c1 := if caseId.Some? then c["case_id" := caseId.value] else c;
    var c2 := if activity.Some? then c1["activity" := activity.value] else c1;
    var c3 := if timestamp.Some? then c2["timestamp" := timestamp.value] else c2;
    var c4 := if resource.Some? then c3["resource" := resource.value] else c3;
    if defaultFileFormat.Some? then c4["default_file_format" := defaultFileFormat.value] else c4
  }

  /** With no argument given, setting changes nothing. */
  lemma SetNothing(c: Config)
    requires WellFormed(c)
    ensures SetGlobalConfig(c, None, None, None, None, None) == c
  {
  }

  /** The result of `update_global_config`: the configuration it leaves
      behind, and the error it raised, if any. */
  datatype Updated = Updated(config: Config, error: Option<Error>)

  /** `update_global_config(**kwargs)`: the pairs are applied in order; the
      first unknown name raises ValueError, and the pairs before it stay
      applied. */
  function UpdateGlobalConfig(c: Config, kwargs: seq<(string, string)>): (r: Updated)
    requires WellFormed(c)
    ensures WellFormed(r.config)
    ensures r.error.None? <==> forall i :: 0 <= i < |kwargs| ==> kwargs[i].0 in Keys
    ensures r.error.Some? ==> r.error.value == ValueError
  {
    if |kwargs| == 0 then Updated(c, None)
    else if kwargs[0].0 in c then UpdateGlobalConfig(c[kwargs[0].0 := kwargs[0].1], kwargs[1..])
    else Updated(c, Some(ValueError))
  }

  /** The pairs as a dictionary update, applied in order. */
  function Apply(c: Config, kwargs: seq<(string, string)>): Config
    decreases |kwargs|
  {
    if |kwargs| == 0 then c else Apply(c[kwargs[0].0 := kwargs[0].1], kwargs[1..])
  }

  /** When every name is known the update applies all pairs. */
  lemma {:induction false} UpdateAllKnown(c: Config, kwargs: seq<(string, string)>)
    requires WellFormed(c)
    requires forall i :: 0 <= i < |kwargs| ==> kwargs[i].0 in Keys
    ensures UpdateGlobalConfig(c, kwargs) == Updated(Apply(c, kwargs), None)
  {
    if |kwargs| > 0 {
      UpdateAllKnown(c[kwargs[0].0 := kwargs[0].1], kwargs[1..]);
    }
  }

  /** The update is not atomic: with the first unknown name at position
      `j`, the configuration left behind has the pairs before `j` applied. */
  lemma {:induction false} UpdateStopsAtUnknown(c: Config, kwargs: seq<(string, string)>, j: nat)
    requires WellFormed(c)
    requires j < |kwargs| && kwargs[j].0 !in Keys
    requires forall i :: 0 <= i < j ==> kwargs[i].0 in Keys
    ensures UpdateGlobalConfig(c, kwargs) == Updated(Apply(c, kwargs[..j]), Some(ValueError))
  {
    if j > 0 {
      assert kwargs[1..][..j - 1] == kwargs[..j][1..];
      UpdateStopsAtUnknown(c[kwargs[0].0 := kwargs[0].1], kwargs[1..], j - 1);
    }
  }

  /** An update naming only known settings changes those and no other. */
  lemma {:induction false} ApplyChangesOnlyNamed(c: Config, kwargs: seq<(string, string)>, key: string)
    requires forall i :: 0 <= i < |kwargs| ==> kwargs[i].0 != key
    decreases |kwargs|
    ensures key in Apply(c, kwargs) <==> key in c
    ensures key in c ==> Apply(c, kwargs)[key] == c[key]
  {
    if |kwargs| > 0 {
      ApplyChangesOnlyNamed(c[kwargs[0].0 := kwargs[0].1], kwargs[1..], key);
    }
  }

  /** `reset_global_config`: the defaults, whatever came before. */
  function ResetGlobalConfig(c: Config): (r: Config)
    ensures WellFormed(r)
    ensures CaseId(r) == "case:concept:name" && Activity(r) == "concept:name"
    ensures Timestamp(r) == "time:timestamp" && Resource(r) == "org:resource"
    ensures DefaultFileFormat(r) == ".parquet"
  {
    Defaults
  }

  /** Resetting twice is resetting once, and a reset forgets every earlier
      change. */
  lemma ResetIdempotent(c: Config, kwargs: seq<(string, string)>)
    requires WellFormed(c)
    ensures ResetGlobalConfig(ResetGlobalConfig(c)) == ResetGlobalConfig(c)
    ensures ResetGlobalConfig(UpdateGlobalConfig(c, kwargs).config) == ResetGlobalConfig(c)
  {
  }

  // ---------------------------------------------------------------------
  // Cache path

  /** `str.replace(pat, rep)`: every non-overlapping occurrence of `pat`,
      scanning left to right, becomes `rep`. */
  function ReplaceAll(s: string, pat: string, rep: string): string
    requires |pat| > 0
  {
    if |s| == 0 then ""
    else if |pat| <= |s| && s[..|pat|] == pat then rep + ReplaceAll(s[|pat|..], pat, rep)
    else [s[0]] + ReplaceAll(s[1..], pat, rep)
  }

  /** Replacing a string by itself changes nothing. */
  lemma {:induction false} ReplaceSelf(s: string, pat: string)
    requires |pat| > 0
    ensures ReplaceAll(s, pat, pat) == s
  {
    if |s| > 0 {
      if |pat| <= |s| && s[..|pat|] == pat {
        ReplaceSelf(s[|pat|..], pat);
        assert s == s[..|pat|] + s[|pat|..];
      } else {
        ReplaceSelf(s[1..], pat);
        assert s == [s[0]] + s[1..];
      }
    }
  }

  /** A string not containing the first character of `pat` is unchanged. */
  lemma {:induction false} ReplaceAbsent(s: string, pat: string, rep: string)
    requires |pat| > 0 && pat[0] !in s
    ensures ReplaceAll(s, pat, rep) == s
  {
    if |s| > 0 {
      assert s[0] != pat[0];
      assert forall x :: x in s[1..] ==> x in s;
      ReplaceAbsent(s[1..], pat, rep);
      assert s == [s[0]] + s[1..];
    }
  }

  /** ... and neither is such a prefix of a longer string. */
  lemma {:induction false} ReplaceAfterAbsent(a: string, b: string, pat: string, rep: string)
    requires |pat| > 0 && pat[0] !in a
    ensures ReplaceAll(a + b, pat, rep) == a + ReplaceAll(b, pat, rep)
  {
    if |a| > 0 {
      var s := a + b;
      assert s[0] == a[0] && s[0] != pat[0];
      assert !(|pat| <= |s| && s[..|pat|] == pat);
      assert s[1..] == a[1..] + b;
      assert forall x :: x in a[1..] ==> x in a;
      ReplaceAfterAbsent(a[1..], b, pat, rep);
      assert a == [a[0]] + a[1..];
    } else {
      assert a + b == b;
    }
  }

  /** `get_file_path`: root/class_name/name, where the name is the file
      name with every ".gz" removed and then every ".xes" replaced by the
      format. */
  function GetFilePath(root: string, className: string, fileName: string, format: string): string
  {
    root + "/" + className + "/" + ReplaceAll(ReplaceAll(fileName, ".gz", ""), ".xes", format)
  }

  lemma ReplaceSuffixes(format: string)
    ensures ReplaceAll(".xes.gz", ".gz", "") == ".xes"
    ensures ReplaceAll(".xes", ".gz", "") == ".xes"
    ensures ReplaceAll(".xes", ".xes", format) == format
  {
    ReplaceAfterAbsent("xes", ".gz", ".gz", "");
    assert ".xes.gz"[1..] == "xes" + ".gz";
    ReplaceAbsent("xes", ".gz", "");
    assert ".xes"[1..] == "xes";
    assert ".xes"[..4] == ".xes";
  }

  /** A compressed or plain XES file whose base name has no dot is cached
      as that base name with the format appended. */
  lemma CachedName(base: string, format: string)
    requires '.' !in base
    ensures ReplaceAll(ReplaceAll(base + ".xes.gz", ".gz", ""), ".xes", format) == base + format
    ensures ReplaceAll(ReplaceAll(base + ".xes", ".gz", ""), ".xes", format) == base + format
  {
    ReplaceSuffixes(format);
    ReplaceAfterAbsent(base, ".xes.gz", ".gz", "");
    ReplaceAfterAbsent(base, ".xes", ".gz", "");
    ReplaceAfterAbsent(base, ".xes", ".xes", format);
  }

  /** A compressed XES file is cached under root/class_name as its dotless
      base name with the format appended; for the BPI Challenge 2012 log,
      "BPI_Challenge_2012.xes.gz" of class BPI12 becomes
      root/BPI12/BPI_Challenge_2012.parquet under the default format. */
  lemma Bpi12CachePath(root: string, base: string, format: string)
    requires base == "BPI_Challenge_2012" && format == DefaultFileFormat(Defaults)
    ensures base + ".xes.gz" == "BPI_Challenge_2012.xes.gz" && format == ".parquet"
    ensures GetFilePath(root, "BPI12", base + ".xes.gz", format) == root + "/BPI12/" + base + format
  {
    NoDotInBpi12(base);
    CachedPath(root, "BPI12", base, format);
    assert root + "/" + "BPI12" + "/" + base + format == root + "/BPI12/" + base + format;
  }

  lemma NoDotInBpi12(base: string)
    requires base == "BPI_Challenge_2012"
    ensures '.' !in base
  {
  }

  /** The cache path of a compressed XES file with a dotless base name. */
  lemma CachedPath(root: string, className: string, base: string, format: string)
    requires '.' !in base
    ensures GetFilePath(root, className, base + ".xes.gz", format) == root + "/" + className + "/" + base + format
  {
    CachedName(base, format);
  }

  // ---------------------------------------------------------------------
  // The downloadable log

  /** `TUEventLog.__init__`, the path part: an explicit path (a non-empty
      one; the empty string is falsy) is used as given; otherwise the
      class's file name is required, and the cache path is derived from it
      and the configured format. */
  function InitFilePath(c: Config, root: string, className: string,
                        filePath: Option<string>, fileName: Option<string>): (r: Result<string>)
    requires WellFormed(c)
    ensures r.Failure? <==> (filePath.None? || filePath.value == "") && (fileName.None? || fileName.value == "")
    ensures r.Failure? ==> r.error == ValueError
    ensures filePath.Some? && filePath.value != "" ==> r == Success(filePath.value)
    ensures (filePath.None? || filePath.value == "") && r.Success? ==>
      r.value == GetFilePath(root, className, fileName.value, DefaultFileFormat(c))
  {
    if filePath.Some? && filePath.value != "" then Success(filePath.value)
    else if fileName.None? || fileName.value == "" then Failure(ValueError)
    else Success(GetFilePath(root, className, fileName.value, DefaultFileFormat(c)))
  }

  /** The parameters of the unbiased split of a dataset. */
  datatype SplitParams = SplitParams(testLen: real, startDate: Option<string>, endDate: Option<string>, maxDays: real)

  /** `unbiased_split_params`: the dataset's parameters, or ValueError when
      the dataset defines none. */
  function UnbiasedSplitParams(params: Option<SplitParams>): (r: Result<SplitParams>)
    ensures r.Failure? <==> params.None?
    ensures r.Failure? ==> r.error == ValueError
    ensures r.Success? ==> r.value == params.value
  {
    if params.None? then Failure(ValueError) else Success(params.value)
  }

  /** The parameters the BPI Challenge 2012 dataset defines. */
  const Bpi12Params: SplitParams := SplitParams(0.2, None, Some("2012-02"), 32.28)

  /** The BPI Challenge 2012 dataset has its split parameters; a dataset
      without them refuses. */
  lemma SplitParamsAvailability()
    ensures UnbiasedSplitParams(Some(Bpi12Params)).Success?
    ensures UnbiasedSplitParams(Some(Bpi12Params)).value.testLen == 0.2
    ensures UnbiasedSplitParams(None) == Failure(ValueError)
  {
  }
}
