/** Nvdoc::getFilesInformation and Nvdoc::getVersion (src/Nvdoc.php).

    Reflection is an oracle: `reflect(name)` is `None` when constructing a
    ReflectionClass for `name` throws, and otherwise the parts of the class
    that getFilesInformation reads. The values PHP's reflection returns
    (ReflectionMethod, ReflectionAttribute, ...) are opaque here, of type V. */
module Nvdoc {
  import opened Options
  import opened ClassNames
  import opened FileHelper

  /** What getFilesInformation reads from one ReflectionClass. `name` is
      ReflectionClass::getName, the class's declared name, which need not be
      the string the class was looked up by (class lookup ignores case).
      `docComment` is `None` where PHP returns `false`. Constants and traits
      are PHP arrays keyed by constant and trait name, kept in order. */
  datatype Reflection<V> = Reflection(
    name: string,
    methods: seq<V>,
    attributes: seq<V>,
    constants: seq<(string, V)>,
    docComment: Option<string>,
    interfaceNames: seq<string>,
    namespaceName: string,
    properties: seq<V>,
    traits: seq<(string, V)>)

  /** The eight-entry array stored for one class: methods, attributes,
      constants, doc_comment, interfaces, namespace, properties, traits. */
  datatype ClassRecord<V> = ClassRecord(
    methods: seq<V>,
    attributes: seq<V>,
    constants: seq<(string, V)>,
    docComment: Option<string>,
    interfaces: seq<string>,
    namespace: string,
    properties: seq<V>,
    traits: seq<(string, V)>)

  /** The information collected so far, keyed by class name. */
  type Information<V> = map<string, ClassRecord<V>>

  /** The record built from a reflection: each of the eight entries is the
      corresponding reflection query, unchanged. */
  function RecordOf<V>(rf: Reflection<V>): (r: ClassRecord<V>)
    ensures r.methods == rf.methods && r.attributes == rf.attributes
    ensures r.constants == rf.constants && r.docComment == rf.docComment
    ensures r.interfaces == rf.interfaceNames && r.namespace == rf.namespaceName
    ensures r.properties == rf.properties && r.traits == rf.traits
  {
    ClassRecord(rf.methods, rf.attributes, rf.constants, rf.docComment, rf.interfaceNames,
                rf.namespaceName, rf.properties, rf.traits)
  }

  /** One iteration of the foreach: on a reflection failure the information
      is left as it is; otherwise the class's record is stored under its
      reflected name, replacing any earlier one. */
  function Step<V>(info: Information<V>, candidate: string, reflect: string -> Option<Reflection<V>>)
    : (r: Information<V>)
    ensures reflect(candidate).None? ==> r == info
    ensures reflect(candidate).Some? ==>
              var rf := reflect(candidate).value;
              r.Keys == info.Keys + {rf.name} && r[rf.name] == RecordOf(rf)
              && forall k :: k in info && k != rf.name ==> k in r && r[k] == info[k]
  {
    match reflect(candidate)
    case None => info
    case Some(rf) => info[rf.name := RecordOf(rf)]
  }

  /** The foreach over the candidates, in order, starting from `info`. */
  function Collect<V>(info: Information<V>, candidates: seq<string>,
                      reflect: string -> Option<Reflection<V>>): (r: Information<V>)
    ensures info.Keys <= r.Keys
    decreases |candidates|
  {
    if candidates == [] then info
    else Collect(Step(info, candidates[0], reflect), candidates[1..], reflect)
  }

  /** getFilesInformation: the records of the classes findFiles reports,
      keyed by reflected name. */
  function GetFilesInformation<V, D>(files: seq<string>, manifest: Option<seq<Psr4Entry<D>>>,
                                     classExists: string -> bool,
                                     reflect: string -> Option<Reflection<V>>): (r: Information<V>)
    ensures files == [] ==> r == map[]
  {
    Collect(map[], FindFiles(files, manifest, classExists).classes, reflect)
  }

  /** The same, as the loop with its try/catch. */
  method GetFilesInformationLoop<V, D>(files: seq<string>, manifest: Option<seq<Psr4Entry<D>>>,
                                       classExists: string -> bool,
                                       reflect: string -> Option<Reflection<V>>)
    returns (information: Information<V>)
    ensures information == GetFilesInformation(files, manifest, classExists, reflect)
  {
    var classes, _ := FindFilesLoop(files, manifest, classExists);
    information := map[];
    var i := 0;
    while i < |classes|
      invariant 0 <= i <= |classes|
      invariant Collect(information, classes[i..], reflect) == Collect(map[], classes, reflect)
    {
      assert classes[i..][1..] == classes[i + 1..];
      var reflected := reflect(classes[i]);
      match reflected {
        case None =>
        case Some(rf) =>
          information := information[rf.name := RecordOf(rf)];
      }
      i := i + 1;
    }
    assert classes[i..] == [];
  }

  // ---------------------------------------------------------------------------
  // Which keys, which values
  // ---------------------------------------------------------------------------

  /** Candidate `c` reflects to a class named `key`. */
  predicate ReflectsTo<V>(reflect: string -> Option<Reflection<V>>, c: string, key: string)
  {
    reflect(c).Some? && reflect(c).value.name == key
  }

  /** The reflected names of the candidates that reflect without failure. */
  function ReflectedNames<V>(candidates: seq<string>, reflect: string -> Option<Reflection<V>>)
    : (r: set<string>)
    ensures forall key :: key in r <==> exists k :: 0 <= k < |candidates| && ReflectsTo(reflect, candidates[k], key)
  {
    set k | 0 <= k < |candidates| && reflect(candidates[k]).Some? :: reflect(candidates[k]).value.name
  }

  /** Running the loop over `a + b` is running it over `a`, then over `b`. */
  lemma {:induction false} CollectAppend<V>(info: Information<V>, a: seq<string>, b: seq<string>,
                                            reflect: string -> Option<Reflection<V>>)
    ensures Collect(info, a + b, reflect) == Collect(Collect(info, a, reflect), b, reflect)
    decreases |a|
  {
    if a == [] {
      assert a + b == b;
    } else {
      assert (a + b)[0] == a[0] && (a + b)[1..] == a[1..] + b;
      CollectAppend(Step(info, a[0], reflect), a[1..], b, reflect);
    }
  }

  /** A candidate whose reflection fails contributes nothing: removing it
      from the list does not change the result. */
  lemma FailureSkipped<V>(info: Information<V>, a: seq<string>, c: string, b: seq<string>,
                          reflect: string -> Option<Reflection<V>>)
    requires reflect(c).None?
    ensures Collect(info, a + [c] + b, reflect) == Collect(info, a + b, reflect)
  {
    CollectAppend(info, a + [c], b, reflect);
    CollectAppend(info, a, [c], reflect);
    CollectAppend(info, a, b, reflect);
    assert [c][1..] == [];
  }

  /** The reflected names of a non-empty list: the first candidate's, if it
      reflects, and those of the rest. */
  lemma ReflectedNamesCons<V>(candidates: seq<string>, reflect: string -> Option<Reflection<V>>)
    requires candidates != []
    ensures ReflectedNames(candidates, reflect)
         == (if reflect(candidates[0]).Some? then {reflect(candidates[0]).value.name} else {})
            + ReflectedNames(candidates[1..], reflect)
  {
    var rest := candidates[1..];
    var all := ReflectedNames(candidates, reflect);
    var later := ReflectedNames(rest, reflect);
    var first := if reflect(candidates[0]).Some? then {reflect(candidates[0]).value.name} else {};
    forall key
      ensures key in all <==> key in first || key in later
    {
      if key in all {
        var k :| 0 <= k < |candidates| && ReflectsTo(reflect, candidates[k], key);
        if k > 0 {
          assert rest[k - 1] == candidates[k];
        }
      }
      if key in later {
        var k :| 0 <= k < |rest| && ReflectsTo(reflect, rest[k], key);
        assert candidates[k + 1] == rest[k];
      }
      if key in first {
        assert ReflectsTo(reflect, candidates[0], key);
      }
    }
  }

  /** The keys are the keys already present plus the reflected names of the
      candidates that reflect without failure. */
  lemma {:induction false} CollectKeys<V>(info: Information<V>, candidates: seq<string>,
                                          reflect: string -> Option<Reflection<V>>)
    ensures Collect(info, candidates, reflect).Keys == info.Keys + ReflectedNames(candidates, reflect)
    decreases |candidates|
  {
    if candidates != [] {
      CollectKeys(Step(info, candidates[0], reflect), candidates[1..], reflect);
      ReflectedNamesCons(candidates, reflect);
    }
  }

  /** `k` is the last position whose candidate reflects to `key`. */
  predicate LastFor<V>(candidates: seq<string>, reflect: string -> Option<Reflection<V>>, key: string, k: nat)
  {
    k < |candidates| && ReflectsTo(reflect, candidates[k], key)
    && forall l :: k < l < |candidates| ==> !ReflectsTo(reflect, candidates[l], key)
  }

  /** A key no candidate reflects to keeps the value it had. */
  lemma {:induction false} CollectUntouched<V>(info: Information<V>, candidates: seq<string>,
                                               reflect: string -> Option<Reflection<V>>, key: string)
    requires key in info
    requires forall l :: 0 <= l < |candidates| ==> !ReflectsTo(reflect, candidates[l], key)
    ensures var r := Collect(info, candidates, reflect);
            key in r && r[key] == info[key]
    decreases |candidates|
  {
    if candidates != [] {
      assert !ReflectsTo(reflect, candidates[0], key);
      forall l | 0 <= l < |candidates[1..]|
        ensures !ReflectsTo(reflect, candidates[1..][l], key)
      {
        assert candidates[1..][l] == candidates[l + 1];
      }
      CollectUntouched(Step(info, candidates[0], reflect), candidates[1..], reflect, key);
    }
  }

  /** Last write wins: the value stored under `key` is the record of the
      last candidate that reflects to `key`. */
  lemma LastWriteWins<V>(info: Information<V>, candidates: seq<string>,
                         reflect: string -> Option<Reflection<V>>, key: string, k: nat)
    requires LastFor(candidates, reflect, key, k)
    ensures var r := Collect(info, candidates, reflect);
            key in r && r[key] == RecordOf(reflect(candidates[k]).value)
  {
    var before, at, after := candidates[..k], [candidates[k]], candidates[k + 1..];
    assert candidates == before + at + after;
    CollectAppend(info, before + at, after, reflect);
    CollectAppend(info, before, at, reflect);
    var mid := Collect(info, before + at, reflect);
    assert at[1..] == [];
    assert key in mid && mid[key] == RecordOf(reflect(candidates[k]).value);
    forall l | 0 <= l < |after|
      ensures !ReflectsTo(reflect, after[l], key)
    {
      assert after[l] == candidates[k + 1 + l];
    }
    CollectUntouched(mid, after, reflect, key);
  }

  // ---------------------------------------------------------------------------
  // End to end
  // ---------------------------------------------------------------------------

  /** The keys of getFilesInformation are the reflected names of the classes
      findFiles returns. */
  lemma GetFilesInformationKeysAreReflectedNames<V, D>(files: seq<string>, manifest: Option<seq<Psr4Entry<D>>>,
                                                       classExists: string -> bool,
                                                       reflect: string -> Option<Reflection<V>>)
    ensures GetFilesInformation(files, manifest, classExists, reflect).Keys
         == ReflectedNames(FindFiles(files, manifest, classExists).classes, reflect)
  {
    CollectKeys(map[], FindFiles(files, manifest, classExists).classes, reflect);
  }

  /** A key of getFilesInformation is exactly the reflected name of some
      existing candidate class built from a listed file and a PSR-4 prefix. */
  lemma GetFilesInformationKeys<V, D>(files: seq<string>, manifest: Option<seq<Psr4Entry<D>>>,
                                      classExists: string -> bool,
                                      reflect: string -> Option<Reflection<V>>, key: string)
    ensures var ns := DefinedNamespaces(manifest);
            key in GetFilesInformation(files, manifest, classExists, reflect)
            <==> exists a, b :: 0 <= a < |files| && 0 <= b < |ns| && classExists(Candidate(ns[b].prefix, files[a]))
                                && ReflectsTo(reflect, Candidate(ns[b].prefix, files[a]), key)
  {
    var ns := DefinedNamespaces(manifest);
    var classes := FindFiles(files, manifest, classExists).classes;
    GetFilesInformationKeysAreReflectedNames(files, manifest, classExists, reflect);
    if key in ReflectedNames(classes, reflect) {
      var k :| 0 <= k < |classes| && ReflectsTo(reflect, classes[k], key);
      FindFilesMembership(files, manifest, classExists, classes[k]);
      var a, b :| 0 <= a < |files| && 0 <= b < |ns|
                  && classes[k] == Candidate(ns[b].prefix, files[a]) && classExists(classes[k]);
    }
    if exists a, b :: 0 <= a < |files| && 0 <= b < |ns| && classExists(Candidate(ns[b].prefix, files[a]))
                      && ReflectsTo(reflect, Candidate(ns[b].prefix, files[a]), key) {
      var a, b :| 0 <= a < |files| && 0 <= b < |ns| && classExists(Candidate(ns[b].prefix, files[a]))
                  && ReflectsTo(reflect, Candidate(ns[b].prefix, files[a]), key);
      var c := Candidate(ns[b].prefix, files[a]);
      FindFilesMembership(files, manifest, classExists, c);
      var k :| 0 <= k < |classes| && classes[k] == c;
      assert ReflectsTo(reflect, classes[k], key);
    }
  }

  /** A directory none of whose candidate names denotes an existing class
      yields no information at all. */
  lemma GetFilesInformationNothingResolves<V, D>(files: seq<string>, manifest: Option<seq<Psr4Entry<D>>>,
                                                 classExists: string -> bool,
                                                 reflect: string -> Option<Reflection<V>>)
    requires forall a, b :: 0 <= a < |files| && 0 <= b < |DefinedNamespaces(manifest)|
                            ==> !classExists(Candidate(DefinedNamespaces(manifest)[b].prefix, files[a]))
    ensures GetFilesInformation(files, manifest, classExists, reflect) == map[]
  {
    var info := GetFilesInformation(files, manifest, classExists, reflect);
    forall key | key in info
      ensures false
    {
      GetFilesInformationKeys(files, manifest, classExists, reflect, key);
    }
  }

  /** The key is the reflected name, not the candidate: with one file and
      one PSR-4 entry whose candidate class exists and reflects to `rf`, the
      result holds exactly one record, under `rf.name`, whatever the
      candidate string was. */
  lemma GetFilesInformationKeyedByReflectedName<V, D>(file: string, entry: Psr4Entry<D>,
                                                      classExists: string -> bool,
                                                      reflect: string -> Option<Reflection<V>>)
    requires classExists(Candidate(entry.prefix, file))
    requires reflect(Candidate(entry.prefix, file)).Some?
    ensures var rf := reflect(Candidate(entry.prefix, file)).value;
            GetFilesInformation([file], Some([entry]), classExists, reflect) == map[rf.name := RecordOf(rf)]
  {
    var files, ns := [file], [entry];
    var c := Candidate(entry.prefix, file);
    FindFilesOneFile(file, Some(ns), classExists);
    assert ScanRow(files, ns, Candidate, classExists, 0, 0) == [c] + [];
    assert FindFiles(files, Some(ns), classExists).classes == [c];
    assert [c][0] == c && [c][1..] == [];
    assert Collect(map[], [c], reflect) == Collect(Step(map[], c, reflect), [], reflect);
  }

  /** A concrete lookup under another spelling: the file `bar.php` under the
      prefix `Foo\` gives the candidate `Foo\bar`, which reflects to the class
      declared as `Foo\Bar`; only the declared name is a key. */
  lemma GetFilesInformationExample()
    ensures var reflect := (c: string) => if c == "Foo\\bar" then Some(Reflection("Foo\\Bar", [], [], [], None, [], "Foo", [0], [])) else None;
            var info := GetFilesInformation(["bar.php"], Some([Psr4Entry("Foo\\", 0)]), (c: string) => true, reflect);
            info.Keys == {"Foo\\Bar"} && "Foo\\bar" !in info && info["Foo\\Bar"].properties == [0]
  {
    var reflect := (c: string) => if c == "Foo\\bar" then Some(Reflection("Foo\\Bar", [], [], [], None, [], "Foo", [0], [])) else None;
    CandidateExampleLowerCase();
    GetFilesInformationKeyedByReflectedName("bar.php", Psr4Entry("Foo\\", 0), (c: string) => true, reflect);
  }

  /** Worked candidate for the example above. */
  lemma CandidateExampleLowerCase()
    ensures Candidate("Foo\\", "bar.php") == "Foo\\bar"
  {
    assert "bar.php" == "bar" + PhpExtension;
    assert "Foo" + [Separator] + "bar" == "Foo\\bar";
    TrimSeparatorsExample();
    ConvertPhpFile("bar");
  }

  // ---------------------------------------------------------------------------
  // getVersion
  // ---------------------------------------------------------------------------

  /** The version reported when the root package carries none. */
  const DefaultVersion: string := "0.0.1"

  /** getVersion: the root package's `version` entry, or the default. */
  function GetVersion(rootPackage: map<string, string>): (r: string)
    ensures "version" in rootPackage ==> r == rootPackage["version"]
    ensures "version" !in rootPackage ==> r == DefaultVersion
  {
    if "version" in rootPackage then rootPackage["version"] else DefaultVersion
  }

  /** Only the `version` entry matters: root packages that agree on it
      report the same version, whatever else they hold. */
  lemma GetVersionReadsOnlyVersion(p1: map<string, string>, p2: map<string, string>)
    requires ("version" in p1 <==> "version" in p2)
    requires "version" in p1 ==> p1["version"] == p2["version"]
    ensures GetVersion(p1) == GetVersion(p2)
  {
  }
}
