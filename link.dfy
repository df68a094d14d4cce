/**
 * `wrap_with_marks` and `create_link`: from one decoded Steam shortcut, the
 * descriptor of the Windows link to write (target, arguments, icon, display
 * name, working directory, file path) and of the box art to place beside it,
 * and the ordered file operations that carry the descriptor out.
 */
module Link {
  import opened Results
  import opened Strings

  /** The fields of a decoded Steam shortcut that the tool reads. */
  datatype Shortcut = Shortcut(appId: nat, appName: string, exe: string, startDir: string, icon: string)

  /** The artwork sub-directory of the destination folder, spelled as the tool spells it. */
  const StreamingAssetsSubdir: string := "StreammingAssets\\"
  /** The artwork directory of the Steam configuration directory. */
  const GridSubdir: string := "grid\\"
  /** The artwork file written into a shortcut's artwork directory. */
  const BoxArtFileName: string := "\\box-art.png"
  /** The artwork bundled with the tool, used when Steam has none. */
  const DefaultBoxArt: string := "assets/box-art.png"

  /** The characters the name sanitiser deletes. */
  const Reserved: set<char> := {'\\', '/', ':', '*', '?', '"', '<', '>', '|'}

  /* ---------------------------------------------------------------------- */
  /* Target and arguments                                                    */
  /* ---------------------------------------------------------------------- */

  /** `wrap_with_marks`: the text between two double quotes. */
  function WrapWithMarks(text: string): (r: string)
    ensures |r| == |text| + 2
    ensures r[0] == '"' && r[|r| - 1] == '"'
    ensures r[1..|r| - 1] == text
  {
    "\"" + text + "\""
  }

  /**
   * The argument string of the link: the shortcut's command line with every
   * occurrence of the quoted target deleted, scanning left to right.
   */
  function Arguments(target: string, exe: string): (r: string)
    ensures |r| <= |exe|
  {
    DeleteAll(exe, WrapWithMarks(target))
  }

  /** Only deletions happen, and the command line comes back unchanged exactly when it holds no quoted target. */
  lemma ArgumentsSpec(target: string, exe: string)
    ensures IsSubsequence(Arguments(target, exe), exe)
    ensures Arguments(target, exe) == exe <==> !Contains(exe, WrapWithMarks(target))
  {
    DeleteAllUnchangedIff(exe, WrapWithMarks(target));
    DeleteAllIsSubsequence(exe, WrapWithMarks(target));
  }

  /**
   * At the first occurrence of the quoted target, the text before it is kept,
   * the occurrence is dropped, and the rest of the command line is treated
   * the same way, so every later occurrence goes as well.
   */
  lemma ArgumentsAtFirst(target: string, exe: string, i: nat)
    requires OccursAt(exe, WrapWithMarks(target), i)
    requires forall j :: 0 <= j < i ==> !OccursAt(exe, WrapWithMarks(target), j)
    ensures Arguments(target, exe) == exe[..i] + Arguments(target, exe[i + |target| + 2..])
  {
    DeleteAllAtFirst(exe, WrapWithMarks(target), i);
  }

  /** A command line made of the quoted target followed by text that holds no quoted target yields that text. */
  lemma ArgumentsAfterQuotedPath(target: string, rest: string)
    requires !Contains(rest, WrapWithMarks(target))
    ensures Arguments(target, WrapWithMarks(target) + rest) == rest
  {
    DeleteAllLeading(WrapWithMarks(target), rest);
    DeleteAllUnchangedIff(rest, WrapWithMarks(target));
  }

  /** The arguments of `"C:\G\g.exe" --fullscreen` for target `C:\G\g.exe` keep their leading space. */
  lemma ArgumentsExample(target: string, exe: string)
    requires target == "C:\\G\\g.exe" && exe == "\"C:\\G\\g.exe\" --fullscreen"
    ensures Arguments(target, exe) == " --fullscreen"
  {
    TargetQuotedOnce(target, exe);
    NotContainsFirstChar(" --fullscreen", WrapWithMarks(target));
    ArgumentsAfterQuotedPath(target, " --fullscreen");
  }

  lemma TargetQuotedOnce(target: string, exe: string)
    requires target == "C:\\G\\g.exe" && exe == "\"C:\\G\\g.exe\" --fullscreen"
    ensures exe == WrapWithMarks(target) + " --fullscreen"
  {
  }

  /**
   * Every occurrence is deleted, not only the leading one: when the quoted
   * target comes back after text without a double quote, that copy goes too.
   */
  lemma ArgumentsDeleteEveryOccurrence(target: string, mid: string, rest: string)
    requires '"' !in mid
    ensures Arguments(target, WrapWithMarks(target) + (mid + (WrapWithMarks(target) + rest)))
         == mid + Arguments(target, rest)
  {
    DeleteAllTwice(WrapWithMarks(target), mid, rest);
  }

  /** `"C:\g.exe" -c "C:\g.exe".cfg` with target `C:\g.exe` gives ` -c .cfg`. */
  lemma ArgumentsRepeatedExample(target: string, exe: string)
    requires target == "C:\\g.exe" && exe == "\"C:\\g.exe\" -c \"C:\\g.exe\".cfg"
    ensures Arguments(target, exe) == " -c .cfg"
  {
    var w := WrapWithMarks(target);
    TargetQuotedTwice(target, exe);
    ArgumentsDeleteEveryOccurrence(target, " -c ", ".cfg");
    DeleteAllNoFirstChar(".cfg", w);
  }

  lemma TargetQuotedTwice(target: string, exe: string)
    requires target == "C:\\g.exe" && exe == "\"C:\\g.exe\" -c \"C:\\g.exe\".cfg"
    ensures exe == WrapWithMarks(target) + (" -c " + (WrapWithMarks(target) + ".cfg"))
  {
  }

  /* ---------------------------------------------------------------------- */
  /* Name sanitiser                                                          */
  /* ---------------------------------------------------------------------- */

  /** The display name with `\ / : * ? " < > |` deleted, one replacement after another. */
  function Sanitize(name: string): string
  {
    var s1 := DeleteAll(name, "\\");
    var s2 := DeleteAll(s1, "/");
    var s3 := DeleteAll(s2, ":");
    var s4 := DeleteAll(s3, "*");
    var s5 := DeleteAll(s4, "?");
    var s6 := DeleteAll(s5, "\"");
    var s7 := DeleteAll(s6, "<");
    var s8 := DeleteAll(s7, ">");
    DeleteAll(s8, "|")
  }

  /** The nine replacements together delete exactly the reserved characters and keep the rest in order. */
  lemma SanitizeIsWithout(name: string)
    ensures Sanitize(name) == Without(name, Reserved)
  {
    var s1 := DeleteAll(name, "\\");
    DeleteCharIsWithout(name, '\\');
    var s5 := FirstFourDeleted(name, s1);
    var s9 := LastFiveDeleted(name, s5);
    assert {'\\'} + {'/', ':', '*'} + {'?'} + {'"', '<', '>', '|'} == Reserved;
  }

  lemma FirstFourDeleted(name: string, s1: string) returns (s5: string)
    requires s1 == Without(name, {'\\'})
    ensures s5 == DeleteAll(DeleteAll(DeleteAll(DeleteAll(s1, "/"), ":"), "*"), "?")
    ensures s5 == Without(name, {'\\'} + {'/', ':', '*'} + {'?'})
  {
    var s2 := DeleteStep(name, s1, {'\\'}, '/');
    var s3 := DeleteStep(name, s2, {'\\'} + {'/'}, ':');
    var s4 := DeleteStep(name, s3, {'\\'} + {'/'} + {':'}, '*');
    s5 := DeleteStep(name, s4, {'\\'} + {'/'} + {':'} + {'*'}, '?');
    assert {'\\'} + {'/'} + {':'} + {'*'} + {'?'} == {'\\'} + {'/', ':', '*'} + {'?'};
  }

  lemma LastFiveDeleted(name: string, s5: string) returns (s9: string)
    requires s5 == Without(name, {'\\'} + {'/', ':', '*'} + {'?'})
    ensures s9 == DeleteAll(DeleteAll(DeleteAll(DeleteAll(s5, "\""), "<"), ">"), "|")
    ensures s9 == Without(name, {'\\'} + {'/', ':', '*'} + {'?'} + {'"', '<', '>', '|'})
  {
    var a := {'\\'} + {'/', ':', '*'} + {'?'};
    var s6 := DeleteStep(name, s5, a, '"');
    var s7 := DeleteStep(name, s6, a + {'"'}, '<');
    var s8 := DeleteStep(name, s7, a + {'"'} + {'<'}, '>');
    s9 := DeleteStep(name, s8, a + {'"'} + {'<'} + {'>'}, '|');
    assert a + {'"'} + {'<'} + {'>'} + {'|'} == a + {'"', '<', '>', '|'};
  }

  /** Deleting one more character from a name with the characters of `a` deleted. */
  lemma DeleteStep(name: string, s: string, a: set<char>, c: char) returns (r: string)
    requires s == Without(name, a)
    ensures r == DeleteAll(s, [c]) && r == Without(name, a + {c})
  {
    r := DeleteAll(s, [c]);
    DeleteCharIsWithout(s, c);
    WithoutWithout(name, a, {c});
  }

  /**
   * The sanitised name holds no reserved character, holds every other
   * character of the name as often as the name does, keeps their order and
   * is already sanitised.
   */
  lemma SanitizeSpec(name: string)
    ensures forall k :: 0 <= k < |Sanitize(name)| ==> Sanitize(name)[k] !in Reserved
    ensures forall c :: c !in Reserved ==> multiset(Sanitize(name))[c] == multiset(name)[c]
    ensures forall c :: c in Reserved ==> c !in Sanitize(name)
    ensures IsSubsequence(Sanitize(name), name)
    ensures Sanitize(Sanitize(name)) == Sanitize(name)
  {
    var r := Sanitize(name);
    SanitizeIsWithout(name);
    WithoutCounts(name, Reserved);
    WithoutIsSubsequence(name, Reserved);
    SanitizeIsWithout(r);
    WithoutNoOp(r, Reserved);
  }

  /** `Game: *Title*` becomes `Game Title`. */
  lemma SanitizeExample(name: string)
    requires name == "Game: *Title*"
    ensures Sanitize(name) == "Game Title"
  {
    SanitizeIsWithout(name);
    FilterGameTitle(name);
  }

  lemma FilterGameTitle(name: string)
    requires name == "Game: *Title*"
    ensures Without(name, Reserved) == "Game Title"
  {
    GameTitleParts(name);
    WithoutAppend("Game:", " *Title*", Reserved);
    FilterGame();
    FilterTitle();
  }

  lemma GameTitleParts(name: string)
    requires name == "Game: *Title*"
    ensures name == "Game:" + " *Title*"
    ensures "Game" + " Title" == "Game Title"
  {
  }


  lemma FilterGame()
    ensures Without("Game:", Reserved) == "Game"
  {
    WithoutAppend("Game", ":", Reserved);
    assert Without("Game", Reserved) == "Game";
  }

  lemma FilterTitle()
    ensures Without(" *Title*", Reserved) == " Title"
  {
    WithoutAppend(" *", "Title*", Reserved);
    FilterSpaceStar();
    FilterTitleStar();
  }

  lemma FilterSpaceStar()
    ensures Without(" *", Reserved) == " "
  {
  }

  lemma FilterTitleStar()
    ensures Without("Title*", Reserved) == "Title"
  {
    WithoutAppend("Tit", "le*", Reserved);
  }

  /** The empty name stays empty. */
  lemma SanitizeEmpty(name: string)
    requires name == ""
    ensures Sanitize(name) == ""
  {
    SanitizeIsWithout(name);
  }

  /** A name made only of reserved characters sanitises to the empty label. */
  lemma SanitizeAllReserved(name: string)
    requires forall k :: 0 <= k < |name| ==> name[k] in Reserved
    ensures Sanitize(name) == ""
  {
    SanitizeIsWithout(name);
    WithoutCounts(name, Reserved);
    var r := Sanitize(name);
    assert forall c :: c !in Reserved ==> c !in multiset(name);
    assert multiset(r) == multiset{};
  }

  /* ---------------------------------------------------------------------- */
  /* Paths                                                                   */
  /* ---------------------------------------------------------------------- */

  function LinkPath(dest: string, safeName: string): string {
    dest + safeName + ".lnk"
  }

  function BoxArtDir(dest: string, safeName: string): string {
    dest + StreamingAssetsSubdir + safeName
  }

  function BoxArtFile(boxArtDir: string): string {
    boxArtDir + BoxArtFileName
  }

  function GridPath(config: string, appId: nat): string {
    config + GridSubdir + Decimal(appId)
  }

  function PngSource(config: string, appId: nat): string {
    GridPath(config, appId) + "p.png"
  }

  function JpgSource(config: string, appId: nat): string {
    GridPath(config, appId) + "p.jpg"
  }

  /** The Steam artwork paths of different applications are different, and the PNG path is never the JPG path. */
  lemma GridSourcesDistinct(config: string, a: nat, b: nat)
    ensures PngSource(config, a) == PngSource(config, b) ==> a == b
    ensures JpgSource(config, a) == JpgSource(config, b) ==> a == b
    ensures PngSource(config, a) != JpgSource(config, b)
  {
    var n := |config| + |GridSubdir|;
    var pa, pb := PngSource(config, a), PngSource(config, b);
    var ja, jb := JpgSource(config, a), JpgSource(config, b);
    assert pa[n..|pa| - 5] == Decimal(a) && ja[n..|ja| - 5] == Decimal(a);
    assert pb[n..|pb| - 5] == Decimal(b) && jb[n..|jb| - 5] == Decimal(b);
    if pa == pb {
      DecimalInjective(a, b);
    }
    if ja == jb {
      DecimalInjective(a, b);
    }
    assert pa[|pa| - 2] == 'n' && jb[|jb| - 2] == 'p';
  }

  /**
   * Names that differ only by a reserved character get the same link path,
   * so their links overwrite each other: `My:Game` and `MyGame` collide.
   */
  lemma LinkPathsCollide(dest: string, before: string, c: char, after: string)
    requires c in Reserved
    ensures LinkPath(dest, Sanitize(before + [c] + after)) == LinkPath(dest, Sanitize(before + after))
  {
    SanitizeIsWithout(before + [c] + after);
    SanitizeIsWithout(before + after);
    WithoutSkips(before, c, after, Reserved);
  }

  /* ---------------------------------------------------------------------- */
  /* Box art                                                                 */
  /* ---------------------------------------------------------------------- */

  /** How the box art reaches its destination; the copies trim the destination path, the transcode does not. */
  datatype ArtCopy =
    | CopyPng(from: string, to: string)
    | TranscodeJpg(from: string, to: string)
    | CopyDefault(to: string)
  {
    function Source(): string {
      match this
      case CopyPng(from, _) => from
      case TranscodeJpg(from, _) => from
      case CopyDefault(_) => DefaultBoxArt
    }
  }

  /**
   * The artwork source, first match wins: Steam's PNG when it exists, else
   * Steam's JPG when it exists, else the bundled default.
   */
  function SelectArtwork(existing: set<string>, png: string, jpg: string, dest: string): ArtCopy {
    if png in existing then CopyPng(png, Trim(dest))
    else if jpg in existing then TranscodeJpg(jpg, dest)
    else CopyDefault(Trim(dest))
  }

  /**
   * Each kind of copy is chosen exactly when its source is the first that
   * exists; the copies go to the trimmed destination, the transcode to the
   * destination as given.
   */
  lemma SelectArtworkSpec(existing: set<string>, png: string, jpg: string, dest: string)
    ensures var a := SelectArtwork(existing, png, jpg, dest);
      && (a.CopyPng? <==> png in existing)
      && (a.TranscodeJpg? <==> png !in existing && jpg in existing)
      && (a.CopyDefault? <==> png !in existing && jpg !in existing)
      && (a.CopyPng? ==> a.from == png && a.to == Trim(dest))
      && (a.TranscodeJpg? ==> a.from == jpg && a.to == dest)
      && (a.CopyDefault? ==> a.to == Trim(dest))
  {
  }

  /** Reference definition: the first candidate that exists, or the fallback when none does. */
  function FirstExisting(candidates: seq<string>, existing: set<string>, fallback: string): (r: string)
    ensures r == fallback || (r in candidates && r in existing)
    ensures (forall k :: 0 <= k < |candidates| ==> candidates[k] !in existing) ==> r == fallback
    decreases |candidates|
  {
    if candidates == [] then fallback
    else if candidates[0] in existing then candidates[0]
    else FirstExisting(candidates[1..], existing, fallback)
  }

  /** The chosen source is the first existing one of PNG then JPG, else the bundled default. */
  lemma SelectArtworkFirstMatch(existing: set<string>, png: string, jpg: string, dest: string)
    ensures SelectArtwork(existing, png, jpg, dest).Source() == FirstExisting([png, jpg], existing, DefaultBoxArt)
  {
    assert [png, jpg][1..] == [jpg];
  }

  /** An existing PNG is chosen whatever the state of the JPG. */
  lemma PngWinsWhateverJpg(existing: set<string>, png: string, jpg: string, dest: string)
    requires png in existing && png != jpg
    ensures SelectArtwork(existing + {jpg}, png, jpg, dest) == SelectArtwork(existing - {jpg}, png, jpg, dest)
    ensures SelectArtwork(existing, png, jpg, dest) == CopyPng(png, Trim(dest))
  {
  }

  /**
   * With a destination folder that has no surrounding whitespace, which is how
   * the tool is called, trimming the artwork destination changes nothing, so
   * the branch that does not trim writes to the same place as the others.
   */
  lemma BoxArtTrimHarmless(dest: string, safeName: string)
    requires Trim(dest) == dest
    ensures Trim(BoxArtFile(BoxArtDir(dest, safeName))) == BoxArtFile(BoxArtDir(dest, safeName))
  {
    var tail := BoxArtTail(dest, safeName);
    TrimAppendNoOp(dest, tail);
  }

  /** What the box-art destination adds after the destination folder; it starts with `S` and ends with `g`. */
  lemma BoxArtTail(dest: string, safeName: string) returns (tail: string)
    ensures BoxArtFile(BoxArtDir(dest, safeName)) == dest + tail
    ensures tail != [] && !IsWhitespace(tail[0]) && !IsWhitespace(tail[|tail| - 1])
  {
    tail := StreamingAssetsSubdir + safeName + BoxArtFileName;
    assert tail[0] == 'S' && tail[|tail| - 1] == 'g';
  }


  /* ---------------------------------------------------------------------- */
  /* The link descriptor and its file operations                             */
  /* ---------------------------------------------------------------------- */

  /** What `create_link` hands to the link writer and to the artwork copy. */
  datatype LinkPlan = LinkPlan(
    target: string,
    arguments: string,
    icon: string,
    name: string,
    workingDir: string,
    lnkPath: string,
    boxArtDir: string,
    art: ArtCopy)

  /** A file operation that may fail. */
  datatype Effect =
    | NewShellLink(target: string)              // ShellLink::new
    | WriteLink(path: string)                   // create_lnk
    | CreateDirAll(path: string)                // fs::create_dir_all
    | CopyFile(from: string, to: string)        // fs::copy
    | TranscodeToPng(from: string, to: string)  // image::open and save

  /** The ways processing a target can fail. */
  datatype Failure =
    | ManifestUnavailable(path: string)  // shortcuts.vdf could not be read or decoded
    | TargetDoesNotExist                 // "Target does not exist."
    | EffectFailed(effect: Effect)

  /**
   * The file system as the tool sees it: which paths exist, which file
   * operations fail, and the decoded shortcuts of each readable manifest.
   */
  datatype FileSystem = FileSystem(
    existing: set<string>,
    failing: set<Effect>,
    manifests: map<string, seq<Shortcut>>)

  /** The descriptor `create_link` builds for shortcut `sc`. */
  function Plan(fs: FileSystem, target: string, config: string, dest: string, sc: Shortcut): LinkPlan
  {
    var escaped := Sanitize(sc.appName);
    var boxArtDir := BoxArtDir(dest, escaped);
    LinkPlan(
      target, Arguments(target, sc.exe), sc.icon, sc.appName, sc.startDir,
      LinkPath(dest, escaped), boxArtDir,
      SelectArtwork(fs.existing, PngSource(config, sc.appId), JpgSource(config, sc.appId), BoxArtFile(boxArtDir)))
  }

  /**
   * The link file is named by the sanitised display name between the
   * destination folder and `.lnk`, so its name holds no reserved character;
   * the link itself shows the unsanitised name; the artwork lives in the
   * artwork sub-directory named by the same sanitised name, comes from the
   * first existing of Steam's PNG and JPG or else the bundled default, and is
   * written to `box-art.png` there, the path trimmed except for the JPG.
   */
  lemma PlanLayout(fs: FileSystem, target: string, config: string, dest: string, sc: Shortcut)
    ensures var p := Plan(fs, target, config, dest, sc);
      && p.lnkPath == dest + Sanitize(sc.appName) + ".lnk"
      && (forall k :: |dest| <= k < |p.lnkPath| - 4 ==> p.lnkPath[k] !in Reserved)
      && p.target == target && p.name == sc.appName && p.icon == sc.icon && p.workingDir == sc.startDir
      && p.arguments == Arguments(target, sc.exe) && IsSubsequence(p.arguments, sc.exe)
      && p.boxArtDir == dest + "StreammingAssets\\" + Sanitize(sc.appName)
      && p.art.Source() == FirstExisting([PngSource(config, sc.appId), JpgSource(config, sc.appId)], fs.existing, DefaultBoxArt)
      && (p.art.TranscodeJpg? ==> p.art.to == p.boxArtDir + "\\box-art.png")
      && (!p.art.TranscodeJpg? ==> p.art.to == Trim(p.boxArtDir + "\\box-art.png"))
      && p.art == SelectArtwork(fs.existing, PngSource(config, sc.appId), JpgSource(config, sc.appId), p.boxArtDir + "\\box-art.png")
  {
    var p := Plan(fs, target, config, dest, sc);
    var n := Sanitize(sc.appName);
    SanitizeSpec(sc.appName);
    ArgumentsSpec(target, sc.exe);
    var png, jpg := PngSource(config, sc.appId), JpgSource(config, sc.appId);
    SelectArtworkSpec(fs.existing, png, jpg, BoxArtFile(p.boxArtDir));
    SelectArtworkFirstMatch(fs.existing, png, jpg, BoxArtFile(p.boxArtDir));
    forall k | |dest| <= k < |p.lnkPath| - 4
      ensures p.lnkPath[k] !in Reserved
    {
      assert p.lnkPath[k] == n[k - |dest|];
    }
  }

  function ArtEffect(a: ArtCopy): Effect {
    match a
    case CopyPng(from, to) => CopyFile(from, to)
    case TranscodeJpg(from, to) => TranscodeToPng(from, to)
    case CopyDefault(to) => CopyFile(DefaultBoxArt, to)
  }

  /** The file operations of `create_link`, in the order it performs them. */
  function Effects(p: LinkPlan): seq<Effect> {
    [NewShellLink(p.target), WriteLink(p.lnkPath), CreateDirAll(p.boxArtDir), ArtEffect(p.art)]
  }

  /**
   * The file operations of `create_link` for descriptor `p`, each propagating
   * its error with `?`: the descriptor when every operation succeeds,
   * otherwise the first operation that fails, after which none runs.
   */
  function Perform(p: LinkPlan, failing: set<Effect>): Result<LinkPlan, Failure> {
    if NewShellLink(p.target) in failing then Err(EffectFailed(NewShellLink(p.target)))
    else if WriteLink(p.lnkPath) in failing then Err(EffectFailed(WriteLink(p.lnkPath)))
    else if CreateDirAll(p.boxArtDir) in failing then Err(EffectFailed(CreateDirAll(p.boxArtDir)))
    else if ArtEffect(p.art) in failing then Err(EffectFailed(ArtEffect(p.art)))
    else Ok(p)
  }

  /** `create_link`: build the descriptor of the shortcut, then perform its file operations. */
  function CreateLink(fs: FileSystem, target: string, config: string, dest: string, sc: Shortcut): Result<LinkPlan, Failure> {
    Perform(Plan(fs, target, config, dest, sc), fs.failing)
  }

  /** Operation `k` is the first of `es` that fails. */
  ghost predicate FailsFirst(es: seq<Effect>, failing: set<Effect>, k: int) {
    0 <= k < |es| && es[k] in failing && forall j :: 0 <= j < k ==> es[j] !in failing
  }

  /**
   * Performing the operations succeeds, with the descriptor itself, exactly
   * when none of the four operations fails; when one does, the failure
   * names the first operation that fails.
   */
  lemma PerformOutcome(p: LinkPlan, failing: set<Effect>) returns (k: nat)
    ensures Perform(p, failing).Ok? <==> forall j :: 0 <= j < |Effects(p)| ==> Effects(p)[j] !in failing
    ensures Perform(p, failing).Ok? ==> Perform(p, failing).value == p
    ensures Perform(p, failing).Err? ==>
      FailsFirst(Effects(p), failing, k) && Perform(p, failing).error == EffectFailed(Effects(p)[k])
  {
    var es := Effects(p);
    if es[0] in failing {
      k := 0;
    } else if es[1] in failing {
      k := 1;
    } else if es[2] in failing {
      k := 2;
    } else {
      k := 3;
      if es[3] !in failing {
        forall j | 0 <= j < |es|
          ensures es[j] !in failing
        {
          assert j == 0 || j == 1 || j == 2 || j == 3;
        }
      }
    }
  }

  /** A failing link writer leaves the artwork untouched: no directory is made and nothing is copied. */
  lemma LinkFailureStopsArtwork(fs: FileSystem, target: string, config: string, dest: string, sc: Shortcut)
    requires WriteLink(Plan(fs, target, config, dest, sc).lnkPath) in fs.failing
    ensures CreateLink(fs, target, config, dest, sc).Err?
    ensures CreateLink(fs, target, config, dest, sc).error.effect.NewShellLink?
         || CreateLink(fs, target, config, dest, sc).error.effect.WriteLink?
  {
    var p := Plan(fs, target, config, dest, sc);
    assert Effects(p)[1] in fs.failing;
    var k := PerformOutcome(p, fs.failing);
  }

  /**
   * A whole link: with nothing on disk and nothing failing, the shortcut
   * "Game: *Title*" launching `"C:\G\g.exe" --fullscreen` gets the link
   * `D:\out\Game Title.lnk`, passing ` --fullscreen`, showing the
   * unsanitised name, with the bundled box art.
   */
  lemma CreateLinkExample(fs: FileSystem, target: string, config: string, dest: string, sc: Shortcut)
    requires fs.existing == {} && fs.failing == {}
    requires target == "C:\\G\\g.exe" && dest == "D:\\out\\"
    requires sc.appName == "Game: *Title*" && sc.exe == "\"C:\\G\\g.exe\" --fullscreen"
    ensures CreateLink(fs, target, config, dest, sc).Ok?
    ensures var p := CreateLink(fs, target, config, dest, sc).value;
      && p.lnkPath == "D:\\out\\Game Title.lnk"
      && p.arguments == " --fullscreen"
      && p.name == "Game: *Title*"
      && p.art.CopyDefault?
  {
    var p := Plan(fs, target, config, dest, sc);
    assert Perform(p, fs.failing) == Ok(p);
    ArgumentsExample(target, sc.exe);
    SanitizeExample(sc.appName);
    LinkPathExample(dest, Sanitize(sc.appName));
    assert p.art.CopyDefault?;
  }

  lemma LinkPathExample(dest: string, safeName: string)
    requires dest == "D:\\out\\" && safeName == "Game Title"
    ensures LinkPath(dest, safeName) == "D:\\out\\Game Title.lnk"
  {
  }
}
