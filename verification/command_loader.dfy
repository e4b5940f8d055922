/** Command discovery bookkeeping: the module name derived from a file path, the entries
    `load_commands` appends, and the names `setup_cogs` records. Which files exist and what
    importing each one does are inputs. */
module CommandLoader {
  import opened Wrappers
  import opened Text

  /** What executing one discovered file does. */
  datatype Import =
    | ExecFails   // the module raises while it is executed
    | NoSetup     // it runs but defines no `setup`
    | SetupFails  // `setup` exists and raises
    | SetupOk     // `setup` exists and returns

  /** One discovered file, in discovery order, and what importing it does. */
  datatype Discovered = Discovered(path: string, effect: Import)

  /** An entry of `commands_loaded` in `load_commands`. */
  datatype Entry = Entry(name: string, loaded: bool)

  /** Both separators turned into dots. */
  function Dotted(path: string): string {
    ReplaceChar(ReplaceChar(path, '/', '.'), '\\', '.')
  }

  lemma DottedConcat(a: string, b: string)
    ensures Dotted(a + b) == Dotted(a) + Dotted(b)
  {
  }

  /** Dot-conversion leaves a ".py" suffix in place. */
  lemma DottedKeepsSuffix(path: string)
    ensures EndsWith(path, ".py") ==> EndsWith(Dotted(path), ".py")
  {
    if EndsWith(path, ".py") {
      var n := |path|;
      assert path == path[..n - 3] + ".py";
      DottedConcat(path[..n - 3], ".py");
      assert Dotted(".py") == ".py";
    }
  }

  /** The module name: separators become dots, then one trailing ".py" is removed. Files
      are discovered by the pattern `*.py`, so for them exactly that suffix goes. */
  function ModuleName(path: string): (r: string)
    ensures '/' !in r && '\\' !in r
    ensures EndsWith(path, ".py") ==> r + ".py" == Dotted(path)
    ensures !EndsWith(Dotted(path), ".py") ==> r == Dotted(path)
  {
    var d := Dotted(path);
    DottedKeepsSuffix(path);
    var r := RemoveSuffix(d, ".py");
    assert forall c :: c in r ==> c in d;
    r
  }

  /** `load_commands`: one entry per discovered file, in order, loaded exactly when the
      module defines `setup` and neither executing it nor `setup` raised. */
  method LoadCommands(files: seq<Discovered>, loaded: seq<Entry>) returns (r: seq<Entry>)
    ensures r == loaded + EntriesOf(files)
  {
    r := loaded;
    for k := 0 to |files|
      invariant r == loaded + EntriesOf(files[..k])
    {
      var name := ModuleName(files[k].path);
      EntriesOfPrefix(files, k);
      match files[k].effect
      case SetupOk => r := r + [Entry(name, true)];
      case NoSetup => r := r + [Entry(name, false)];
      case ExecFails => r := r + [Entry(name, false)];
      case SetupFails => r := r + [Entry(name, false)];
    }
    assert files[..|files|] == files;
  }

  /** `module_name.split(".")[-1]` */
  function LastPiece(name: string): (r: string)
    ensures '.' !in r
  {
    var pieces := Split(name, '.');
    pieces[|pieces| - 1]
  }

  /** `setup_cogs`: the last dotted piece of each module whose `setup` ran without raising,
      in discovery order; failures are skipped. */
  function SetupCogs(files: seq<Discovered>, loaded: seq<string>): (r: seq<string>)
    ensures |loaded| <= |r| <= |loaded| + |files| && r[..|loaded|] == loaded
    ensures forall j :: |loaded| <= j < |r| ==> '.' !in r[j]
    decreases |files|
  {
    if |files| == 0 then loaded
    else
      var next := loaded + FirstPiece(files);
      var r := SetupCogs(files[1..], next);
      assert r[..|loaded|] == next[..|loaded|];
      r
  }

  /** The entries `load_commands` appends for `files`. */
  function EntriesOf(files: seq<Discovered>): (r: seq<Entry>)
    ensures |r| == |files|
    ensures forall i :: 0 <= i < |files| ==> r[i] == Entry(ModuleName(files[i].path), files[i].effect == SetupOk)
    decreases |files|
  {
    if |files| == 0 then []
    else
      var rest := EntriesOf(files[1..]);
      assert forall i :: 1 <= i < |files| ==> files[i] == files[1..][i - 1];
      [Entry(ModuleName(files[0].path), files[0].effect == SetupOk)] + rest
  }

  /** The entries of one more file are those of the files before it plus its own. */
  lemma EntriesOfPrefix(files: seq<Discovered>, k: nat)
    requires k < |files|
    ensures EntriesOf(files[..k + 1]) == EntriesOf(files[..k]) + [Entry(ModuleName(files[k].path), files[k].effect == SetupOk)]
  {
    var a := EntriesOf(files[..k + 1]);
    var b := EntriesOf(files[..k]) + [Entry(ModuleName(files[k].path), files[k].effect == SetupOk)];
    assert |a| == |b|;
    forall i | 0 <= i < |a|
      ensures a[i] == b[i]
    {
      assert files[..k + 1][i] == files[i];
      if i < k {
        assert files[..k][i] == files[i];
      }
    }
  }

  /** The names of the loaded entries, last dotted piece only. */
  function LoadedPieces(entries: seq<Entry>): seq<string>
    decreases |entries|
  {
    if |entries| == 0 then []
    else (if entries[0].loaded then [LastPiece(entries[0].name)] else []) + LoadedPieces(entries[1..])
  }

  // ---------------------------------------------------------------------------
  // Lemmas

  /** `setup_cogs` records exactly the modules `load_commands` marks as loaded, in the same
      order, each by the last piece of its name. */
  lemma {:induction false} SetupCogsAgreesWithLoadCommands(files: seq<Discovered>, loaded: seq<string>)
    ensures SetupCogs(files, loaded) == loaded + LoadedPieces(EntriesOf(files))
    decreases |files|
  {
    if |files| > 0 {
      var first := FirstPiece(files);
      var rest := LoadedPieces(EntriesOf(files[1..]));
      SetupCogsStep(files, loaded);
      SetupCogsAgreesWithLoadCommands(files[1..], loaded + first);
      LoadedPiecesStep(files);
      assert loaded + first + rest == loaded + (first + rest);
    }
  }

  /** One step of `setup_cogs`: the first file's piece, then the rest. */
  lemma SetupCogsStep(files: seq<Discovered>, loaded: seq<string>)
    requires |files| > 0
    ensures SetupCogs(files, loaded) == SetupCogs(files[1..], loaded + FirstPiece(files))
  {
  }

  /** What the first discovered file contributes to the recorded names. */
  function FirstPiece(files: seq<Discovered>): seq<string>
    requires |files| > 0
  {
    if files[0].effect == SetupOk then [LastPiece(ModuleName(files[0].path))] else []
  }

  /** The loaded pieces of the entries split into the first file's and the rest's. */
  lemma LoadedPiecesStep(files: seq<Discovered>)
    requires |files| > 0
    ensures LoadedPieces(EntriesOf(files)) == FirstPiece(files) + LoadedPieces(EntriesOf(files[1..]))
  {
    var es := EntriesOf(files);
    assert es[1..] == EntriesOf(files[1..]);
  }

  /** The last piece lies after the first dot. */
  lemma LastPieceStep(s: string, k: nat)
    requires IndexOf(s, '.') == Some(k)
    ensures LastPiece(s) == LastPiece(s[k + 1..])
  {
    var rest := Split(s[k + 1..], '.');
    assert Split(s, '.') == [s[..k]] + rest;
  }

  /** A name without a dot is its own last piece. */
  lemma LastPieceOfPlain(last: string)
    requires '.' !in last
    ensures LastPiece(last) == last
  {
    assert IndexOf(last, '.') == None;
  }

  /** The first dot of `prefix + "." + last` is the one after `prefix` or lies within `prefix`. */
  lemma FirstDot(prefix: string, last: string)
    ensures var s := prefix + "." + last;
            IndexOf(s, '.').Some? && IndexOf(s, '.').value <= |prefix|
            && (IndexOf(s, '.').value == |prefix| ==> s[|prefix| + 1..] == last)
            && (IndexOf(s, '.').value < |prefix| ==> s[IndexOf(s, '.').value + 1..] == prefix[IndexOf(s, '.').value + 1..] + "." + last)
  {
    var s := prefix + "." + last;
    assert s[|prefix|] == '.';
    var k := IndexOf(s, '.').value;
    assert '.' in s[..|prefix| + 1];
  }

  /** The last dotted piece of `prefix + "." + last` is `last` when `last` holds no dot. */
  lemma {:induction false} LastPieceAfterDot(prefix: string, last: string)
    requires '.' !in last
    ensures LastPiece(prefix + "." + last) == last
    decreases |prefix|
  {
    var s := prefix + "." + last;
    FirstDot(prefix, last);
    var k := IndexOf(s, '.').value;
    LastPieceStep(s, k);
    if k == |prefix| {
      LastPieceOfPlain(last);
    } else {
      LastPieceAfterDot(prefix[k + 1..], last);
    }
  }

  /** A command file `dir/base.py` whose base name holds no dot or separator is recorded by
      `setup_cogs` under its base name. */
  lemma RecordedUnderBaseName(dir: string, base: string)
    requires '.' !in base && '/' !in base && '\\' !in base
    ensures LastPiece(ModuleName(dir + "/" + base + ".py")) == base
  {
    var path := dir + "/" + base + ".py";
    assert EndsWith(path, ".py");
    DottedConcat(dir + "/" + base, ".py");
    DottedConcat(dir + "/", base);
    DottedConcat(dir, "/");
    assert Dotted(base) == base;
    assert Dotted("/") == ".";
    assert Dotted(".py") == ".py";
    assert ModuleName(path) == Dotted(dir) + "." + base;
    LastPieceAfterDot(Dotted(dir), base);
  }
}
