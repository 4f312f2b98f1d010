/**
 * LocatorRepository: locators of every page and component, loaded from YAML
 * files once and looked up by page name and key.
 *
 * A file `home.yaml` holds, per component, a mapping from locator keys to
 * locators; the repository stores them for page `home` under the keys
 * `component.key`. An environment file `home-<env>.yaml` overrides them;
 * a base file only fills keys that are still missing. Directory listing and
 * YAML parsing are inputs: each file arrives with its name and its parsed
 * content, in the order the listing returns them.
 */
module LocatorRepository {
  import opened Outcomes

  /** One locator key of a component and its (possibly null) locator. */
  type Entry<L> = (string, Option<L>)

  /** A component section of a file: its name and its locator map, in iteration order. */
  datatype Component<L> = Component(name: string, locators: Option<seq<Entry<L>>>)

  /** What parsing a file gives: an exception, a null document, or the component sections. */
  datatype Parsed<L> = Unreadable | NullDocument | Document(components: seq<Component<L>>)

  datatype LocatorFile<L> = LocatorFile(fileName: string, parsed: Parsed<L>)

  /** The locators of one page: `component.key` to locator. */
  type PageMap<L> = map<string, Option<L>>

  /** The whole repository: page name to its locators. */
  type Repo<L> = map<string, PageMap<L>>

  const LocatorFolder: string := "src/test/resources/locators"

  function FolderMissing(): string
  {
    "Locator folder not found at: " + LocatorFolder
  }

  function ParseFailure(fileName: string): string
  {
    "Failed to parse locator file: " + fileName
  }

  function NoPage(pageName: string): string
  {
    "No locators found for page/component: " + pageName
  }

  function NoKey(key: string, pageName: string): string
  {
    "No locator found for key: " + key + " in page/component: " + pageName
  }

  // ----- String operations of java.lang.String -----

  predicate StartsWith(s: string, prefix: string)
  {
    |prefix| <= |s| && s[..|prefix|] == prefix
  }

  /** `s.contains(part)`. */
  predicate Contains(s: string, part: string)
    decreases |s|
  {
    StartsWith(s, part) || (s != [] && Contains(s[1..], part))
  }

  /**
   * `s.replace(target, "")`: every occurrence of `target`, found left to
   * right without overlap, is removed.
   */
  function RemoveAll(s: string, target: string): string
    decreases |s|
  {
    if target == [] || |s| < |target| then s
    else if s[..|target|] == target then RemoveAll(s[|target|..], target)
    else [s[0]] + RemoveAll(s[1..], target)
  }

  // ----- File name to page name -----

  /** `fileName.contains("-" + env)`. */
  predicate IsEnvFile(fileName: string, env: string)
  {
    Contains(fileName, "-" + env)
  }

  /** The page name exactly as the loader computes it. */
  function PageNameAsWritten(fileName: string, env: string): string
  {
    RemoveAll(RemoveAll(RemoveAll(fileName, "-" + env + ".yaml"), ".yaml"), ".yml")
  }

  /**
   * The page name with the environment suffix stripped for `.yml` files as
   * well as for `.yaml` files.
   */
  function PageName(fileName: string, env: string): string
  {
    RemoveAll(RemoveAll(RemoveAll(RemoveAll(fileName, "-" + env + ".yaml"), "-" + env + ".yml"), ".yaml"), ".yml")
  }

  /** Which page-name derivation a loader uses: the source's, or the corrected one. */
  datatype Naming = AsWritten | YmlAware

  function PageNameBy(naming: Naming, fileName: string, env: string): string
  {
    match naming
    case AsWritten => PageNameAsWritten(fileName, env)
    case YmlAware => PageName(fileName, env)
  }

  /** A plain file stem or environment name: no `-` and no `.` in it. */
  predicate Plain(s: string)
  {
    '-' !in s && '.' !in s
  }

  lemma {:induction false} RemoveAllSkipsHead(s: string, t: string, target: string)
    requires target != [] && target[0] !in s
    ensures RemoveAll(s + t, target) == s + RemoveAll(t, target)
  {
    if s != [] {
      assert (s + t)[0] == s[0];
      assert (s + t)[1..] == s[1..] + t;
      RemoveAllSkipsHead(s[1..], t, target);
      if |s + t| < |target| {
        assert |t| < |target|;
      } else {
        assert (s + t)[..|target|] != target by {
          assert (s + t)[..|target|][0] == s[0];
        }
      }
    } else {
      assert s + t == t;
    }
  }

  lemma RemoveAllUntouched(s: string, target: string)
    requires target != [] && target[0] !in s
    ensures RemoveAll(s, target) == s
  {
    RemoveAllSkipsHead(s, [], target);
    assert s + [] == s;
  }

  lemma RemoveAllWhole(target: string)
    requires target != []
    ensures RemoveAll(target, target) == []
  {
    assert target[..|target|] == target;
    assert target[|target|..] == [];
  }

  lemma {:induction false} ContainsFrom(s: string, part: string, i: nat)
    requires i + |part| <= |s| && s[i..i + |part|] == part
    ensures Contains(s, part)
  {
    if i > 0 {
      assert s[1..][i - 1..i - 1 + |part|] == s[i..i + |part|];
      ContainsFrom(s[1..], part, i - 1);
    }
  }

  lemma {:induction false} NotContains(s: string, part: string)
    requires part != [] && part[0] !in s
    ensures !Contains(s, part)
  {
    if s != [] {
      assert s[0] != part[0];
      NotContains(s[1..], part);
    }
  }

  /** Removing a pattern that starts with `-` or `.` leaves a plain stem in front alone. */
  lemma StemStays(stem: string, suffix: string, target: string)
    requires Plain(stem) && target != [] && (target[0] == '-' || target[0] == '.')
    ensures RemoveAll(stem + suffix, target) == stem + RemoveAll(suffix, target)
  {
    RemoveAllSkipsHead(stem, suffix, target);
  }

  lemma StemAlone(stem: string, target: string)
    requires Plain(stem) && target != [] && (target[0] == '-' || target[0] == '.')
    ensures RemoveAll(stem, target) == stem
  {
    RemoveAllUntouched(stem, target);
  }

  /** A pattern longer than the string is not found. */
  lemma ShorterStays(s: string, target: string)
    requires |s| < |target|
    ensures RemoveAll(s, target) == s
  {
  }

  lemma IsEnvFileOfEnvName(stem: string, env: string, extension: string)
    ensures IsEnvFile(stem + "-" + env + extension, env)
  {
    var f := stem + "-" + env + extension;
    assert f[|stem|..|stem| + |"-" + env|] == "-" + env;
    ContainsFrom(f, "-" + env, |stem|);
  }

  lemma NotEnvFileOfBaseName(stem: string, env: string, extension: string)
    requires '-' !in stem && '-' !in extension
    ensures !IsEnvFile(stem + extension, env)
  {
    assert '-' !in stem + extension;
    NotContains(stem + extension, "-" + env);
  }

  /** `home.yaml` is a base file of page `home`. */
  lemma PageNameOfBaseYaml(stem: string, env: string)
    requires Plain(stem)
    ensures !IsEnvFile(stem + ".yaml", env)
    ensures PageNameAsWritten(stem + ".yaml", env) == stem
  {
    NotEnvFileOfBaseName(stem, env, ".yaml");
    var envYaml := "-" + env + ".yaml";
    StemStays(stem, ".yaml", envYaml);
    assert RemoveAll(".yaml", envYaml) == ".yaml" by {
      RemoveAllUntouched(".yaml", envYaml);
    }
    StemStays(stem, ".yaml", ".yaml");
    RemoveAllWhole(".yaml");
    assert stem + [] == stem;
    StemAlone(stem, ".yml");
  }

  /** `home-<env>.yaml` is an environment file of page `home`. */
  lemma PageNameOfEnvYaml(stem: string, env: string)
    requires Plain(stem)
    ensures IsEnvFile(stem + "-" + env + ".yaml", env)
    ensures PageNameAsWritten(stem + "-" + env + ".yaml", env) == stem
  {
    IsEnvFileOfEnvName(stem, env, ".yaml");
    var envYaml := "-" + env + ".yaml";
    assert stem + "-" + env + ".yaml" == stem + envYaml;
    StemStays(stem, envYaml, envYaml);
    RemoveAllWhole(envYaml);
    assert stem + [] == stem;
    StemAlone(stem, ".yaml");
    StemAlone(stem, ".yml");
  }

  /**
   * As written, `home-<env>.yml` is recognised as an environment file but
   * keeps its suffix: its entries go to a page `home-<env>` of their own
   * instead of overriding page `home`, which `home.yml` names.
   */
  lemma PageNameAsWrittenOfYmlEnvFile(stem: string, env: string)
    requires Plain(stem) && Plain(env)
    ensures IsEnvFile(stem + "-" + env + ".yml", env)
    ensures PageNameAsWritten(stem + "-" + env + ".yml", env) == stem + "-" + env
    ensures PageNameAsWritten(stem + ".yml", env) == stem
  {
    IsEnvFileOfEnvName(stem, env, ".yml");
    var envYaml := "-" + env + ".yaml";
    var named := stem + "-" + env;
    assert stem + "-" + env + ".yml" == named + ".yml";
    assert '.' !in named;
    // the environment suffix for .yaml does not occur
    assert named + ".yml" == stem + ("-" + env + ".yml");
    StemStays(stem, "-" + env + ".yml", envYaml);
    ShorterStays("-" + env + ".yml", envYaml);
    // nor does .yaml; then .yml goes
    RemoveAllSkipsHead(named, ".yml", ".yaml");
    ShorterStays(".yml", ".yaml");
    RemoveAllSkipsHead(named, ".yml", ".yml");
    RemoveAllWhole(".yml");
    assert named + [] == named;
    // the base file of the same page
    StemStays(stem, ".yml", envYaml);
    RemoveAllUntouched(".yml", envYaml);
    StemStays(stem, ".yml", ".yaml");
    StemStays(stem, ".yml", ".yml");
    assert stem + [] == stem;
  }

  lemma PageNameOfYaml(stem: string, env: string)
    requires Plain(stem)
    ensures PageName(stem + ".yaml", env) == stem
  {
    var envYaml := "-" + env + ".yaml";
    var envYml := "-" + env + ".yml";
    StemStays(stem, ".yaml", envYaml);
    RemoveAllUntouched(".yaml", envYaml);
    StemStays(stem, ".yaml", envYml);
    RemoveAllUntouched(".yaml", envYml);
    StemStays(stem, ".yaml", ".yaml");
    RemoveAllWhole(".yaml");
    assert stem + [] == stem;
    StemAlone(stem, ".yml");
  }

  lemma PageNameOfYml(stem: string, env: string)
    requires Plain(stem)
    ensures PageName(stem + ".yml", env) == stem
  {
    var envYaml := "-" + env + ".yaml";
    var envYml := "-" + env + ".yml";
    StemStays(stem, ".yml", envYaml);
    RemoveAllUntouched(".yml", envYaml);
    StemStays(stem, ".yml", envYml);
    RemoveAllUntouched(".yml", envYml);
    StemStays(stem, ".yml", ".yaml");
    ShorterStays(".yml", ".yaml");
    StemStays(stem, ".yml", ".yml");
    RemoveAllWhole(".yml");
    assert stem + [] == stem;
  }

  lemma PageNameOfEnvYamlCorrected(stem: string, env: string)
    requires Plain(stem)
    ensures PageName(stem + "-" + env + ".yaml", env) == stem
  {
    var envYaml := "-" + env + ".yaml";
    assert stem + "-" + env + ".yaml" == stem + envYaml;
    StemStays(stem, envYaml, envYaml);
    RemoveAllWhole(envYaml);
    assert stem + [] == stem;
    StemAlone(stem, "-" + env + ".yml");
    StemAlone(stem, ".yaml");
    StemAlone(stem, ".yml");
  }

  lemma PageNameOfEnvYml(stem: string, env: string)
    requires Plain(stem)
    ensures PageName(stem + "-" + env + ".yml", env) == stem
  {
    var envYaml := "-" + env + ".yaml";
    var envYml := "-" + env + ".yml";
    assert stem + "-" + env + ".yml" == stem + envYml;
    StemStays(stem, envYml, envYaml);
    ShorterStays(envYml, envYaml);
    StemStays(stem, envYml, envYml);
    RemoveAllWhole(envYml);
    assert stem + [] == stem;
    StemAlone(stem, ".yaml");
    StemAlone(stem, ".yml");
  }

  /**
   * The corrected derivation: the base file and the environment file of a
   * page, `.yaml` or `.yml`, all name that page.
   */
  lemma PageNameOfAllForms(stem: string, env: string)
    requires Plain(stem)
    ensures PageName(stem + ".yaml", env) == stem
    ensures PageName(stem + ".yml", env) == stem
    ensures PageName(stem + "-" + env + ".yaml", env) == stem
    ensures PageName(stem + "-" + env + ".yml", env) == stem
  {
    PageNameOfYaml(stem, env);
    PageNameOfYml(stem, env);
    PageNameOfEnvYamlCorrected(stem, env);
    PageNameOfEnvYml(stem, env);
  }

  // ----- Merging one file into a page -----

  /** The entries of one component section, under the keys `component.key`. */
  function Expand<L>(componentName: string, locators: seq<Entry<L>>): (r: seq<Entry<L>>)
    ensures |r| == |locators|
  {
    seq(|locators|, i requires 0 <= i < |locators| => (componentName + "." + locators[i].0, locators[i].1))
  }

  /**
   * The entries a file's sections give, in order, up to the first section
   * whose locator map is null (iterating it throws).
   */
  function FlattenUntilNull<L>(components: seq<Component<L>>): seq<Entry<L>>
  {
    if components == [] || components[0].locators.None? then []
    else Expand(components[0].name, components[0].locators.value) + FlattenUntilNull(components[1..])
  }

  predicate HasNullSection<L>(components: seq<Component<L>>)
  {
    exists i :: 0 <= i < |components| && components[i].locators.None?
  }

  /** `if (isEnvFile || !target.containsKey(finalKey)) target.put(finalKey, value)`. */
  function Put<L>(target: PageMap<L>, entry: Entry<L>, isEnvFile: bool): PageMap<L>
  {
    if isEnvFile || entry.0 !in target then target[entry.0 := entry.1] else target
  }

  /** The page after putting the entries one by one. */
  function MergeEntries<L>(target: PageMap<L>, entries: seq<Entry<L>>, isEnvFile: bool): PageMap<L>
    decreases |entries|
  {
    if entries == [] then target else MergeEntries(Put(target, entries[0], isEnvFile), entries[1..], isEnvFile)
  }

  function KeysOf<L>(entries: seq<Entry<L>>): set<string>
  {
    set i | 0 <= i < |entries| :: entries[i].0
  }

  /** The value of the first entry with the given key. */
  function FirstValue<L>(entries: seq<Entry<L>>, key: string): Option<L>
    requires key in KeysOf(entries)
  {
    if entries[0].0 == key then entries[0].1 else FirstValue(entries[1..], key)
  }

  /** The value of the last entry with the given key. */
  function LastValue<L>(entries: seq<Entry<L>>, key: string): Option<L>
    requires key in KeysOf(entries)
  {
    if key in KeysOf(entries[1..]) then LastValue(entries[1..], key) else entries[0].1
  }

  lemma KeysOfTail<L>(entries: seq<Entry<L>>)
    requires entries != []
    ensures KeysOf(entries) == {entries[0].0} + KeysOf(entries[1..])
  {
    forall k | k in KeysOf(entries)
      ensures k == entries[0].0 || k in KeysOf(entries[1..])
    {
      var i :| 0 <= i < |entries| && entries[i].0 == k;
      if i > 0 {
        assert entries[1..][i - 1].0 == k;
      }
    }
    forall k | k in KeysOf(entries[1..])
      ensures k in KeysOf(entries)
    {
      var i :| 0 <= i < |entries[1..]| && entries[1..][i].0 == k;
      assert entries[i + 1].0 == k;
    }
  }

  /**
   * What merging a file's entries into a page does, key by key: every entry
   * is stored under its key; keys the file does not produce keep their
   * values; an environment file's last entry for a key wins; a base file's
   * first entry for a key is stored only when the key was missing.
   */
  lemma {:induction false} MergeEntriesAt<L>(target: PageMap<L>, entries: seq<Entry<L>>, isEnvFile: bool)
    decreases |entries|
    ensures var m := MergeEntries(target, entries, isEnvFile);
      m.Keys == target.Keys + KeysOf(entries) &&
      (forall k :: k in target && k !in KeysOf(entries) ==> m[k] == target[k]) &&
      (isEnvFile ==> forall k :: k in KeysOf(entries) ==> m[k] == LastValue(entries, k)) &&
      (!isEnvFile ==> forall k :: k in target ==> m[k] == target[k]) &&
      (!isEnvFile ==> forall k :: k in KeysOf(entries) && k !in target ==> m[k] == FirstValue(entries, k))
  {
    if entries != [] {
      var e := entries[0];
      var t1 := Put(target, e, isEnvFile);
      MergeEntriesAt(t1, entries[1..], isEnvFile);
      KeysOfTail(entries);
      var m := MergeEntries(target, entries, isEnvFile);
      assert m == MergeEntries(t1, entries[1..], isEnvFile);
      if isEnvFile {
        forall k | k in KeysOf(entries)
          ensures m[k] == LastValue(entries, k)
        {
        }
      } else {
        forall k | k in KeysOf(entries) && k !in target
          ensures m[k] == FirstValue(entries, k)
        {
          if k != e.0 {
            assert k !in t1;
          }
        }
      }
    }
  }

  lemma {:induction false} MergeEntriesAppend<L>(target: PageMap<L>, a: seq<Entry<L>>, b: seq<Entry<L>>, isEnvFile: bool)
    ensures MergeEntries(target, a + b, isEnvFile) == MergeEntries(MergeEntries(target, a, isEnvFile), b, isEnvFile)
    decreases |a|
  {
    if a != [] {
      assert (a + b)[1..] == a[1..] + b;
      MergeEntriesAppend(Put(target, a[0], isEnvFile), a[1..], b, isEnvFile);
    } else {
      assert a + b == b;
    }
  }

  /**
   * For one base file and one environment file of a page, the order in which
   * the listing returns them does not matter: the environment value wins for
   * every key it sets, and the base file fills the rest the same way.
   */
  lemma MergeOrderIndependent<L>(target: PageMap<L>, baseEntries: seq<Entry<L>>, envEntries: seq<Entry<L>>)
    ensures MergeEntries(MergeEntries(target, baseEntries, false), envEntries, true)
         == MergeEntries(MergeEntries(target, envEntries, true), baseEntries, false)
  {
    var b1 := MergeEntries(target, baseEntries, false);
    var lhs := MergeEntries(b1, envEntries, true);
    var e1 := MergeEntries(target, envEntries, true);
    var rhs := MergeEntries(e1, baseEntries, false);
    MergeEntriesAt(target, baseEntries, false);
    MergeEntriesAt(b1, envEntries, true);
    MergeEntriesAt(target, envEntries, true);
    MergeEntriesAt(e1, baseEntries, false);
    assert lhs.Keys == rhs.Keys;
    forall k | k in lhs
      ensures lhs[k] == rhs[k]
    {
      if k in KeysOf(envEntries) {
        assert lhs[k] == LastValue(envEntries, k);
        assert k in e1;
      } else if k in target {
        assert lhs[k] == b1[k];
      } else {
        assert k !in e1;
      }
    }
  }

  // ----- Loading files into the repository -----

  /** The locators of a page, or none yet. */
  function PageOf<L>(repo: Repo<L>, pageName: string): PageMap<L>
  {
    if pageName in repo then repo[pageName] else map[]
  }

  /**
   * The body of the loop over files, for one file: the repository after it
   * and whether it threw. The page is created (`putIfAbsent`) once the file
   * has been parsed, before its sections are read. The source derives the
   * page name `AsWritten`; `YmlAware` gives the corrected loader.
   */
  function LoadFile<L>(repo: Repo<L>, file: LocatorFile<L>, env: string, naming: Naming): (Repo<L>, Outcome<string>)
  {
    var isEnvFile := IsEnvFile(file.fileName, env);
    var pageName := PageNameBy(naming, file.fileName, env);
    match file.parsed
    case Unreadable => (repo, Fail(ParseFailure(file.fileName)))
    case NullDocument => (repo[pageName := PageOf(repo, pageName)], Fail(ParseFailure(file.fileName)))
    case Document(components) =>
      var page := MergeEntries(PageOf(repo, pageName), FlattenUntilNull(components), isEnvFile);
      (repo[pageName := page], if HasNullSection(components) then Fail(ParseFailure(file.fileName)) else Pass)
  }

  /** The loop over files: it stops at the first file that throws. */
  function LoadFiles<L>(repo: Repo<L>, files: seq<LocatorFile<L>>, env: string, naming: Naming): (Repo<L>, Outcome<string>)
    decreases |files|
  {
    if files == [] then (repo, Pass)
    else
      var step := LoadFile(repo, files[0], env, naming);
      if step.1.Fail? then step else LoadFiles(step.0, files[1..], env, naming)
  }

  /**
   * Loading a file touches only its own page: other pages keep their maps,
   * an existing page is extended rather than replaced, and every key the
   * file produces is present afterwards.
   */
  lemma LoadFileIsLocal<L>(repo: Repo<L>, file: LocatorFile<L>, env: string, naming: Naming)
    ensures var after := LoadFile(repo, file, env, naming).0;
      var pageName := PageNameBy(naming, file.fileName, env);
      (forall p :: p in repo && p != pageName ==> p in after && after[p] == repo[p]) &&
      (after.Keys <= repo.Keys + {pageName}) &&
      (file.parsed.Document? ==>
        pageName in after &&
        PageOf(repo, pageName).Keys <= after[pageName].Keys &&
        KeysOf(FlattenUntilNull(file.parsed.components)) <= after[pageName].Keys &&
        (forall k :: k in PageOf(repo, pageName) && k !in KeysOf(FlattenUntilNull(file.parsed.components)) ==>
          after[pageName][k] == PageOf(repo, pageName)[k]))
  {
    if file.parsed.Document? {
      MergeEntriesAt(PageOf(repo, PageNameBy(naming, file.fileName, env)), FlattenUntilNull(file.parsed.components),
        IsEnvFile(file.fileName, env));
    }
  }

  /** Loading one parsed file without null sections merges it into its page and passes. */
  lemma LoadFileOfDocument<L>(repo: Repo<L>, file: LocatorFile<L>, env: string, naming: Naming)
    requires file.parsed.Document? && !HasNullSection(file.parsed.components)
    ensures var pageName := PageNameBy(naming, file.fileName, env);
      LoadFile(repo, file, env, naming) ==
        (repo[pageName := MergeEntries(PageOf(repo, pageName), FlattenUntilNull(file.parsed.components),
          IsEnvFile(file.fileName, env))], Pass)
  {
  }

  /** Loading two files that both pass is loading one after the other. */
  lemma LoadTwoFiles<L>(repo: Repo<L>, first: LocatorFile<L>, second: LocatorFile<L>, env: string, naming: Naming)
    requires LoadFile(repo, first, env, naming).1 == Pass
    requires LoadFile(LoadFile(repo, first, env, naming).0, second, env, naming).1 == Pass
    ensures LoadFiles(repo, [first, second], env, naming) ==
      (LoadFile(LoadFile(repo, first, env, naming).0, second, env, naming).0, Pass)
  {
    var r1 := LoadFile(repo, first, env, naming).0;
    var r12 := LoadFile(r1, second, env, naming).0;
    assert [first, second][1..] == [second];
    assert [second][1..] == [];
    assert LoadFiles(r12, [], env, naming) == (r12, Pass);
    assert LoadFiles(r1, [second], env, naming) == (r12, Pass);
  }

  /**
   * A base file and an environment file of the same page, both parsed
   * without null sections, leave the same repository whichever the listing
   * returns first.
   */
  lemma LoadFilesOrderIndependent<L>(repo: Repo<L>, base: LocatorFile<L>, envFile: LocatorFile<L>, env: string, naming: Naming)
    requires base.parsed.Document? && !HasNullSection(base.parsed.components)
    requires envFile.parsed.Document? && !HasNullSection(envFile.parsed.components)
    requires !IsEnvFile(base.fileName, env) && IsEnvFile(envFile.fileName, env)
    requires PageNameBy(naming, base.fileName, env) == PageNameBy(naming, envFile.fileName, env)
    ensures LoadFiles(repo, [base, envFile], env, naming) == LoadFiles(repo, [envFile, base], env, naming)
    ensures LoadFiles(repo, [base, envFile], env, naming).1 == Pass
  {
    var pageName := PageNameBy(naming, base.fileName, env);
    var b := FlattenUntilNull(base.parsed.components);
    var e := FlattenUntilNull(envFile.parsed.components);
    var t := PageOf(repo, pageName);
    MergeOrderIndependent(t, b, e);
    LoadFileOfDocument(repo, base, env, naming);
    LoadFileOfDocument(repo, envFile, env, naming);
    var r1 := LoadFile(repo, base, env, naming).0;
    var r2 := LoadFile(repo, envFile, env, naming).0;
    LoadFileOfDocument(r1, envFile, env, naming);
    LoadFileOfDocument(r2, base, env, naming);
    assert PageOf(r1, pageName) == MergeEntries(t, b, false);
    assert PageOf(r2, pageName) == MergeEntries(t, e, true);
    LoadTwoFiles(repo, base, envFile, env, naming);
    LoadTwoFiles(repo, envFile, base, env, naming);
    assert LoadFile(r1, envFile, env, naming).0 == LoadFile(r2, base, env, naming).0;
  }

  /**
   * An environment `.yml` file as written lands in a page of its own,
   * `stem-<env>`, and leaves page `stem` as it was; the corrected loader
   * merges it into page `stem`.
   */
  lemma LoadYmlEnvFile<L>(repo: Repo<L>, file: LocatorFile<L>, stem: string, env: string)
    requires Plain(stem) && Plain(env)
    requires file.fileName == stem + "-" + env + ".yml" && file.parsed.Document?
    ensures IsEnvFile(file.fileName, env)
    ensures var asWritten := LoadFile(repo, file, env, AsWritten).0;
      stem + "-" + env in asWritten && PageOf(asWritten, stem) == PageOf(repo, stem)
    ensures var corrected := LoadFile(repo, file, env, YmlAware).0;
      stem in corrected && KeysOf(FlattenUntilNull(file.parsed.components)) <= corrected[stem].Keys
  {
    PageNameAsWrittenOfYmlEnvFile(stem, env);
    PageNameOfEnvYml(stem, env);
    LoadFileIsLocal(repo, file, env, AsWritten);
    LoadFileIsLocal(repo, file, env, YmlAware);
    assert |stem + "-" + env| > |stem|;
  }

  /** The repository, filled by the static initialiser and read by `getLocator`. */
  class LocatorRepository<L> {
    var locatorMap: Repo<L>

    constructor ()
      ensures locatorMap == map[]
    {
      locatorMap := map[];
    }

    /**
     * `getLocator(pageName, key)`: the stored locator; a missing page is one
     * error, a missing key (or a null locator) in a present page another.
     */
    function GetLocator(pageName: string, key: string): (r: Result<L, string>)
      reads this
      ensures pageName !in locatorMap ==> r == Err(NoPage(pageName))
      ensures pageName in locatorMap ==> r != Err(NoPage(pageName))
      ensures pageName in locatorMap && (key !in locatorMap[pageName] || locatorMap[pageName][key].None?) ==>
        r == Err(NoKey(key, pageName))
      ensures r.Ok? <==> pageName in locatorMap && key in locatorMap[pageName] && locatorMap[pageName][key].Some?
      ensures r.Ok? ==> locatorMap[pageName][key] == Some(r.value)
    {
      if pageName !in locatorMap then Err(NoPage(pageName))
      else
        var pageLocators := locatorMap[pageName];
        if key !in pageLocators || pageLocators[key].None? then
          assert NoKey(key, pageName)[10] != NoPage(pageName)[10];
          Err(NoKey(key, pageName))
        else Ok(pageLocators[key].value)
    }

    /** The body of the loop over files in `loadAllLocatorFiles`, for one file. */
    method LoadLocatorFile(file: LocatorFile<L>, env: string) returns (r: Outcome<string>)
      modifies this
      ensures (locatorMap, r) == LoadFile(old(locatorMap), file, env, AsWritten)
    {
      var fileName := file.fileName;
      var isEnvFile := Contains(fileName, "-" + env);
      var pageName := PageNameAsWritten(fileName, env);
      if file.parsed.Unreadable? {
        return Fail(ParseFailure(fileName));
      }
      if pageName !in locatorMap {
        locatorMap := locatorMap[pageName := map[]];
      }
      assert locatorMap == old(locatorMap)[pageName := PageOf(old(locatorMap), pageName)];
      if file.parsed.NullDocument? {
        return Fail(ParseFailure(fileName));
      }
      ghost var before := locatorMap;
      r := MergeDocument(fileName, pageName, file.parsed.components, isEnvFile);
      ghost var page := MergeEntries(PageOf(old(locatorMap), pageName), FlattenUntilNull(file.parsed.components), isEnvFile);
      assert locatorMap == before[pageName := page];
      assert before[pageName := page] == old(locatorMap)[pageName := page];
    }

    /**
     * The loop over the sections of a parsed file, which the page already
     * exists for; a null section throws.
     */
    method MergeDocument(fileName: string, pageName: string, components: seq<Component<L>>, isEnvFile: bool)
      returns (r: Outcome<string>)
      requires pageName in locatorMap
      modifies this
      ensures locatorMap == old(locatorMap)[pageName :=
        MergeEntries(old(locatorMap)[pageName], FlattenUntilNull(components), isEnvFile)]
      ensures r == if HasNullSection(components) then Fail(ParseFailure(fileName)) else Pass
    {
      var target := locatorMap[pageName];
      ghost var merged := MergeEntries(target, FlattenUntilNull(components), isEnvFile);
      var i := 0;
      while i < |components|
        invariant 0 <= i <= |components|
        invariant locatorMap == old(locatorMap)[pageName := target]
        invariant forall j :: 0 <= j < i ==> components[j].locators.Some?
        invariant MergeEntries(target, FlattenUntilNull(components[i..]), isEnvFile) == merged
      {
        var component := components[i];
        if component.locators.None? {
          // iterating a null map throws inside the try
          assert HasNullSection(components);
          return Fail(ParseFailure(fileName));
        }
        var locators := component.locators.value;
        ghost var later := FlattenUntilNull(components[i + 1..]);
        assert components[i..][1..] == components[i + 1..];
        MergeEntriesAppend(target, Expand(component.name, locators), later, isEnvFile);
        target := MergeSection(pageName, target, component.name, locators, isEnvFile);
        i := i + 1;
      }
      assert !HasNullSection(components);
      r := Pass;
    }

    /**
     * The loop over the entries of one section: each entry is put under
     * `component.key` into the page's map, which stays the repository's.
     */
    method MergeSection(pageName: string, target: PageMap<L>, componentName: string, locators: seq<Entry<L>>, isEnvFile: bool)
      returns (merged: PageMap<L>)
      requires locatorMap == locatorMap[pageName := target]
      modifies this
      ensures merged == MergeEntries(target, Expand(componentName, locators), isEnvFile)
      ensures locatorMap == old(locatorMap)[pageName := merged]
    {
      ghost var entries := Expand(componentName, locators);
      merged := target;
      var j := 0;
      while j < |locators|
        invariant 0 <= j <= |locators|
        invariant locatorMap == old(locatorMap)[pageName := merged]
        invariant MergeEntries(merged, entries[j..], isEnvFile) == MergeEntries(target, entries, isEnvFile)
      {
        var finalKey := componentName + "." + locators[j].0;
        assert entries[j..][0] == (finalKey, locators[j].1);
        assert entries[j..][1..] == entries[j + 1..];
        if isEnvFile || finalKey !in merged {
          merged := merged[finalKey := locators[j].1];
          locatorMap := locatorMap[pageName := merged];
        }
        j := j + 1;
      }
    }

    /**
     * `loadAllLocatorFiles`: fails when the folder is missing, otherwise
     * loads the files in listing order and stops at the first one that throws.
     */
    method LoadAllLocatorFiles(folderExists: bool, env: string, files: seq<LocatorFile<L>>) returns (r: Outcome<string>)
      modifies this
      ensures !folderExists ==> r == Fail(FolderMissing()) && locatorMap == old(locatorMap)
      ensures folderExists ==> (locatorMap, r) == LoadFiles(old(locatorMap), files, env, AsWritten)
    {
      if !folderExists {
        return Fail(FolderMissing());
      }
      var i := 0;
      while i < |files|
        invariant 0 <= i <= |files|
        invariant LoadFiles(old(locatorMap), files, env, AsWritten) == LoadFiles(locatorMap, files[i..], env, AsWritten)
      {
        assert files[i..][1..] == files[i + 1..];
        r := LoadLocatorFile(files[i], env);
        if r.Fail? {
          return;
        }
        i := i + 1;
      }
      r := Pass;
    }
  }
}
