/**
 * The application (app.py): the language it picks from the environment,
 * the default pictures folder, and the window object that owns the monitor
 * rows, keeps the sidebar between a quarter and three tenths of the window,
 * gathers the rows' states for the compositor and saves them when a
 * monitor changes.
 */
module App {
  import opened Base
  import opened Config
  import opened Platform
  import opened Geometry
  import opened MonitorRows
  import Composer
  import Modes

  // ---------------------------------------------------------------------
  // `detect_system_language`

  /**
   * What the language lookup reads: the LANGUAGE and LANG variables and the
   * language part of `locale.getdefaultlocale()`, each None when unset
   * (a lookup that raises reads as None too: the handler falls through).
   */
  datatype Environment = Environment(language: Option<string>, lang: Option<string>, defaultLocale: Option<string>)

  /** A setting that decides the language: present, non-empty and not the C locale. */
  predicate Decides(v: Option<string>) {
    Truthy(v) && v.value != "C"
  }

  /**
   * The language code the translations are loaded for. LANGUAGE, when it
   * decides, gives the first two characters of its first ':'-separated
   * entry; otherwise LANG gives everything before its first '_' (not cut to
   * two characters); otherwise the default locale gives its first two
   * characters; otherwise "en".
   */
  function DetectSystemLanguage(env: Environment): (code: string)
    ensures Decides(env.language) ==>
      var v := env.language.value;
      && |code| <= |v| && code == v[..|code|] && ':' !in code && |code| <= 2
      && (|code| < 2 ==> |code| == |v| || v[|code|] == ':')
    ensures !Decides(env.language) && Decides(env.lang) ==>
      var v := env.lang.value;
      && |code| <= |v| && code == v[..|code|] && '_' !in code
      && (|code| == |v| || v[|code|] == '_')
    ensures !Decides(env.language) && !Decides(env.lang) && Decides(env.defaultLocale) ==>
      var v := env.defaultLocale.value;
      |code| == (if |v| < 2 then |v| else 2) && code == v[..|code|]
    ensures !Decides(env.language) && !Decides(env.lang) && !Decides(env.defaultLocale) ==> code == "en"
  {
    if Decides(env.language) then Take(BeforeFirst(env.language.value, ':'), 2)
    else if Decides(env.lang) then BeforeFirst(env.lang.value, '_')
    else if Decides(env.defaultLocale) then Take(env.defaultLocale.value, 2)
    else "en"
  }

  /**
   * The earlier setting wins outright: when LANGUAGE decides, LANG and the
   * locale are never consulted, and when only LANG decides, the locale is not.
   */
  lemma LanguagePrecedence(e1: Environment, e2: Environment)
    ensures Decides(e1.language) && e1.language == e2.language ==>
      DetectSystemLanguage(e1) == DetectSystemLanguage(e2)
    ensures !Decides(e1.language) && !Decides(e2.language) && Decides(e1.lang) && e1.lang == e2.lang ==>
      DetectSystemLanguage(e1) == DetectSystemLanguage(e2)
  {
  }

  /** LANGUAGE's first entry wins over LANG, and only its first two characters are kept. */
  lemma LanguageListWins()
    ensures DetectSystemLanguage(Environment(Some("es_ES:en"), Some("fr_FR.UTF-8"), None)) == "es"
  {
    assert "es_ES:en" == "es_ES" + ":en";
    FirstSeparator("es_ES", ":en", ':');
  }

  /** An explicit "C" passes on to the next setting. */
  lemma ExplicitCPassesOn()
    ensures DetectSystemLanguage(Environment(Some("C"), Some("de_DE.UTF-8"), Some("it_IT"))) == "de"
    ensures DetectSystemLanguage(Environment(Some(""), Some("C"), Some("C"))) == "en"
  {
    assert "de_DE.UTF-8" == "de" + "_DE.UTF-8";
    FirstSeparator("de", "_DE.UTF-8", '_');
  }

  /** LANG keeps whatever precedes '_': for "C.UTF-8", which has none, the whole text. */
  lemma LangKeepsWholeName()
    ensures DetectSystemLanguage(Environment(None, Some("C.UTF-8"), None)) == "C.UTF-8"
  {
    assert "C.UTF-8" == "C.UTF-8" + "";
    FirstSeparator("C.UTF-8", "", '_');
  }

  /** `(a + b).split(sep)[0]` is `a` when `a` holds no `sep` and `b` is empty or starts with one. */
  lemma {:induction false} FirstSeparator(a: string, b: string, sep: char)
    requires sep !in a && (b == [] || b[0] == sep)
    ensures BeforeFirst(a + b, sep) == a
  {
    if a != [] {
      assert (a + b)[1..] == a[1..] + b;
      FirstSeparator(a[1..], b, sep);
      assert a == [a[0]] + a[1..];
    }
  }

  // ---------------------------------------------------------------------
  // `get_default_pictures_directory`

  /** `common_names`: where the pictures folder usually lives under home. */
  const PictureFolderNames: seq<string> := ["Pictures", "Imágenes", "Images", "Bilder", "Imagenes"]

  /**
   * The folder the sidebar starts in when none was saved. `xdg` is what
   * `xdg-user-dir PICTURES` printed, stripped, or None when it failed; it
   * is taken when non-empty and existing. Otherwise the first candidate
   * under home that exists, and home itself when none does.
   */
  predicate IsDefaultPicturesDirectory(dir: string, xdg: Option<string>, home: string, disk: Disk) {
    if Truthy(xdg) && disk.pathExists(xdg.value) then dir == xdg.value
    else
      || (dir == home && forall k :: 0 <= k < |PictureFolderNames| ==> !disk.pathExists(Join(home, PictureFolderNames[k])))
      || (exists k :: 0 <= k < |PictureFolderNames| && dir == Join(home, PictureFolderNames[k]) && disk.pathExists(dir)
            && forall j :: 0 <= j < k ==> !disk.pathExists(Join(home, PictureFolderNames[j])))
  }

  /** `get_default_pictures_directory()`: the candidates are tried in list order. */
  method DefaultPicturesDirectory(xdg: Option<string>, home: string, disk: Disk) returns (dir: string)
    ensures IsDefaultPicturesDirectory(dir, xdg, home, disk)
  {
    if Truthy(xdg) && disk.pathExists(xdg.value) {
      return xdg.value;
    }
    var i := 0;
    while i < |PictureFolderNames|
      invariant 0 <= i <= |PictureFolderNames|
      invariant forall j :: 0 <= j < i ==> !disk.pathExists(Join(home, PictureFolderNames[j]))
    {
      var candidate := Join(home, PictureFolderNames[i]);
      if disk.pathExists(candidate) {
        return candidate;
      }
      i := i + 1;
    }
    return home;
  }

  // ---------------------------------------------------------------------
  // The sidebar width clamp of `_poll_window_size`

  /**
   * The width requested for the sidebar in a window `w` pixels wide: a
   * quarter of the window, at least 180, but never more than three tenths
   * of the window, the cap winning over the minimum.
   */
  function SidebarWidth(w: nat): (target: int)
    ensures w / 4 <= target <= (3 * w) / 10
    ensures target >= 180 <==> w >= 600
    ensures w >= 720 ==> target == w / 4
    ensures 600 <= w < 720 ==> target == 180
    ensures w < 600 ==> target == (3 * w) / 10
  {
    var target := if 180 < w / 4 then w / 4 else 180;
    if target > (3 * w) / 10 then (3 * w) / 10 else target
  }

  /** A wider window never gets a narrower sidebar. */
  lemma SidebarWidthMonotone(w1: nat, w2: nat)
    requires w1 <= w2
    ensures SidebarWidth(w1) <= SidebarWidth(w2)
  {
    assert (3 * w1) / 10 <= (3 * w2) / 10 by {
      DivMonotone(3 * w1, 3 * w2, 10);
    }
    assert w1 / 4 <= w2 / 4 by {
      DivMonotone(w1, w2, 4);
    }
  }

  lemma DivMonotone(a: nat, b: nat, d: nat)
    requires a <= b && 0 < d
    ensures a / d <= b / d
  {
    assert (a / d) * d <= a;
    assert b < (b / d + 1) * d;
    Modes.MulCancelStrict(a / d, b / d + 1, d);
  }

  // ---------------------------------------------------------------------
  // `gather_states`

  /** `{str(r.index): r.get_state() for r in rows}`, the rows taken in order. */
  function StatesOf(rows: seq<MonitorRow>): (states: map<string, MonitorConfig>)
    requires forall k :: 0 <= k < |rows| ==> rows[k].Valid()
    reads rows
    ensures forall key :: key in states <==> exists k :: 0 <= k < |rows| && key == StateKey(rows[k].index)
  {
    if rows == [] then map[]
    else
      var last := rows[|rows| - 1];
      StatesOf(rows[..|rows| - 1])[StateKey(last.index) := last.GetState()]
  }

  /** Rows with distinct indices each own their key: the map holds each row's state under `str(index)`. */
  lemma {:induction false} StatesOfDistinct(rows: seq<MonitorRow>, k: nat)
    requires forall j :: 0 <= j < |rows| ==> rows[j].Valid()
    requires forall i, j :: 0 <= i < j < |rows| ==> rows[i].index != rows[j].index
    requires k < |rows|
    ensures StatesOf(rows)[StateKey(rows[k].index)] == rows[k].GetState()
  {
    var last := rows[|rows| - 1];
    if k < |rows| - 1 {
      StateKeysDistinct(rows[k].index, last.index);
      StatesOfDistinct(rows[..|rows| - 1], k);
    }
  }

  /**
   * `gather_states()` of rows numbered 0 … n-1: exactly the keys "0" …
   * str(n-1), each holding that row's state.
   */
  lemma GatheredStates(rows: seq<MonitorRow>)
    requires forall j :: 0 <= j < |rows| ==> rows[j].Valid() && rows[j].index == j
    ensures forall key :: key in StatesOf(rows) <==> exists k :: 0 <= k < |rows| && key == StateKey(k)
    ensures forall k :: 0 <= k < |rows| ==> StatesOf(rows)[StateKey(k)] == rows[k].GetState()
  {
    var states := StatesOf(rows);
    forall key | key in states
      ensures exists k :: 0 <= k < |rows| && key == StateKey(k)
    {
      var k :| 0 <= k < |rows| && key == StateKey(rows[k].index);
      assert rows[k].index == k;
    }
    forall key | exists k :: 0 <= k < |rows| && key == StateKey(k)
      ensures key in states
    {
      var k :| 0 <= k < |rows| && key == StateKey(k);
      assert key == StateKey(rows[k].index);
    }
    forall k | 0 <= k < |rows|
      ensures states[StateKey(k)] == rows[k].GetState()
    {
      StatesOfDistinct(rows, k);
    }
  }

  /** What `on_monitor_changed` hands to `save_config`. */
  datatype SavedSettings = SavedSettings(monitors: map<string, MonitorConfig>, lastDirectory: string)

  class MultiWallApp {
    /** `self.last_directory`, shared with every row. */
    const lastDirectory: LastDirectory
    /** `self.monitors`, as the rectangles of their geometries. */
    var monitors: seq<Rect>
    var rows: seq<MonitorRow>
    /** `self._last_window_width` */
    var lastWindowWidth: int
    /** The sidebar's width request, None until the first poll sets one. */
    var sidebarWidth: Option<int>

    /** Row k is monitor k's row, valid and sharing the application's last directory; no row appears twice. */
    predicate Valid()
      reads this, rows
    {
      && |rows| == |monitors|
      && (forall k :: 0 <= k < |rows| ==> rows[k].Valid() && rows[k].index == k && rows[k].app == lastDirectory)
      && (forall i, j :: 0 <= i < j < |rows| ==> rows[i] != rows[j])
    }

    /**
     * `MultiWallApp()`: the saved last directory, or the default pictures
     * directory when none was saved. The window is not built yet.
     */
    constructor(savedLastDirectory: Option<string>, xdg: Option<string>, home: string, disk: Disk)
      ensures Valid() && rows == [] && monitors == [] && lastWindowWidth == 0 && sidebarWidth == None
      ensures savedLastDirectory.Some? ==> lastDirectory.path == savedLastDirectory.value
      ensures savedLastDirectory.None? ==> IsDefaultPicturesDirectory(lastDirectory.path, xdg, home, disk)
    {
      var fallback := DefaultPicturesDirectory(xdg, home, disk);
      lastDirectory := new LastDirectory(savedLastDirectory.GetOr(fallback));
      monitors := [];
      rows := [];
      lastWindowWidth := 0;
      sidebarWidth := None;
    }

    /**
     * The row-building loop of `build_ui`: one row per monitor, row k built
     * from `saved.get(str(k), {})`.
     */
    method BuildRows(displayMonitors: seq<Rect>, saved: map<string, MonitorConfig>)
      modifies this
      ensures Valid() && monitors == displayMonitors
      ensures forall k :: 0 <= k < |rows| ==> fresh(rows[k]) && rows[k].GetState() == InitialState(Lookup(saved, k))
      ensures lastWindowWidth == 0 && sidebarWidth == old(sidebarWidth)
    {
      monitors := displayMonitors;
      lastWindowWidth := 0;
      rows := [];
      var i := 0;
      while i < |displayMonitors|
        invariant 0 <= i <= |displayMonitors| && |rows| == i && monitors == displayMonitors
        invariant forall k :: 0 <= k < i ==> rows[k].Valid() && rows[k].index == k && rows[k].app == lastDirectory
        invariant forall k :: 0 <= k < i ==> fresh(rows[k]) && rows[k].GetState() == InitialState(Lookup(saved, k))
        invariant forall a, b :: 0 <= a < b < i ==> rows[a] != rows[b]
        invariant lastWindowWidth == 0 && sidebarWidth == old(sidebarWidth)
      {
        var row := new MonitorRow(i, Lookup(saved, i), lastDirectory);
        rows := rows + [row];
        i := i + 1;
      }
    }

    /**
     * One tick of `_poll_window_size` with the window `width` pixels
     * wide: a new positive width is recorded and the sidebar resized to
     * `SidebarWidth`; an unchanged or non-positive width changes nothing.
     * The timer keeps running either way.
     */
    method PollWindowSize(width: int) returns (keepPolling: bool)
      modifies this
      ensures keepPolling
      ensures rows == old(rows) && monitors == old(monitors)
      ensures width != old(lastWindowWidth) && width > 0 ==>
        lastWindowWidth == width && sidebarWidth == Some(SidebarWidth(width))
      ensures !(width != old(lastWindowWidth) && width > 0) ==>
        lastWindowWidth == old(lastWindowWidth) && sidebarWidth == old(sidebarWidth)
    {
      if width != lastWindowWidth && width > 0 {
        lastWindowWidth := width;
        sidebarWidth := Some(SidebarWidth(width));
      }
      keepPolling := true;
    }

    /** `gather_states()` */
    function GatherStates(): map<string, MonitorConfig>
      requires Valid()
      reads this, rows
    {
      StatesOf(rows)
    }

    /**
     * `on_monitor_changed`, reduced to what it hands `save_config`: one
     * entry per monitor, "0" … str(n-1), holding that row's state, and the
     * last directory.
     */
    function OnMonitorChanged(): (saved: SavedSettings)
      requires Valid()
      reads this, rows, lastDirectory
      ensures saved.lastDirectory == lastDirectory.path
      ensures forall key :: key in saved.monitors <==> exists k :: 0 <= k < |rows| && key == StateKey(k)
      ensures forall k :: 0 <= k < |rows| ==> Lookup(saved.monitors, k) == rows[k].GetState()
    {
      GatheredStates(rows);
      SavedSettings(GatherStates(), lastDirectory.path)
    }

    /**
     * `update_preview`: the compositor run on the display's monitors and
     * the gathered states, scaled to fit 1000 pixels.
     */
    method UpdatePreview(disk: Disk) returns (preview: Result<Composer.Rendering, LayoutError>)
      requires Valid() && Composer.NonEmptyRects(monitors)
      ensures monitors == [] ==> preview.Failure? && preview.error == NoMonitors
      ensures monitors != [] ==>
        var L := Normalize(monitors).value;
        (preview.Failure? <==> Composer.PreviewCollapses(L.width, L.height, Some(1000))) &&
        (preview.Failure? ==> preview.error == EmptyPreview)
      ensures preview.Success? ==>
        var L := Normalize(monitors).value;
        && preview.value.canvas.Length0 == L.width && preview.value.canvas.Length1 == L.height
        && (forall px, py :: 0 <= px < L.width && 0 <= py < L.height ==>
              preview.value.canvas[px, py] == Composer.Painted(L.rects, GatherStates(), disk, |L.rects|, px, py))
        && (preview.value.Downscaled? <==> Composer.PreviewSize(L.width, L.height, Some(1000)).Some?)
        && (preview.value.Downscaled? ==>
              Composer.PreviewSize(L.width, L.height, Some(1000)) == Some((preview.value.width, preview.value.height)))
        && (preview.value.Downscaled? ==> 0 < preview.value.width && 0 < preview.value.height)
    {
      var states := GatherStates();
      preview := Composer.ComposeImage(monitors, states, disk, Some(1000));
    }

    /** Every row's `get_state()`, row by row. */
    function RowStates(): (states: seq<MonitorConfig>)
      requires Valid()
      reads this, rows
      ensures |states| == |rows| && forall k :: 0 <= k < |rows| ==> states[k] == rows[k].GetState()
    {
      StateList(rows)
    }

    /**
     * `assign_image_to_monitor(idx, path, popover)`: row `idx` takes the
     * file when it exists, and the last directory becomes its parent; then
     * the settings are saved. No other row, and nothing else in row `idx`,
     * changes.
     */
    method AssignImageToMonitor(idx: nat, path: string, disk: Disk) returns (saved: SavedSettings)
      requires Valid() && idx < |rows|
      modifies rows[idx], lastDirectory
      ensures Valid()
      ensures RowStates() == old(RowStates())[idx := old(rows[idx].GetState()).(file := if disk.pathExists(path) then Some(path) else old(rows[idx].selectedFile))]
      ensures lastDirectory.path == if disk.pathExists(path) then Parent(path) else old(lastDirectory.path)
      ensures saved == OnMonitorChanged()
    {
      SetRowImage(idx, path, disk);
      saved := OnMonitorChanged();
    }

    /** `self.rows[monitor_idx].set_image_file(image_path)`, seen from the application. */
    method SetRowImage(idx: nat, path: string, disk: Disk)
      requires Valid() && idx < |rows|
      modifies rows[idx], lastDirectory
      ensures Valid()
      ensures RowStates() == old(RowStates())[idx := old(rows[idx].GetState()).(file := if disk.pathExists(path) then Some(path) else old(rows[idx].selectedFile))]
      ensures lastDirectory.path == if disk.pathExists(path) then Parent(path) else old(lastDirectory.path)
    {
      rows[idx].SetImageFile(path, disk);
    }
  }

  /** The rows' states in row order. */
  function StateList(rows: seq<MonitorRow>): (states: seq<MonitorConfig>)
    requires forall k :: 0 <= k < |rows| ==> rows[k].Valid()
    reads rows
    ensures |states| == |rows| && forall k :: 0 <= k < |rows| ==> states[k] == rows[k].GetState()
  {
    if rows == [] then [] else StateList(rows[..|rows| - 1]) + [rows[|rows| - 1].GetState()]
  }

  /**
   * Saving and starting again restores every row: rebuilding row k from
   * what `gather_states` saved gives back the state row k had.
   */
  lemma RestartRestoresRows(rows: seq<MonitorRow>, saved: map<string, MonitorConfig>, k: nat)
    requires forall j :: 0 <= j < |rows| ==> rows[j].Valid() && rows[j].index == j
    requires k < |rows|
    requires forall j :: 0 <= j < |rows| ==> StateKey(j) in saved && saved[StateKey(j)] == rows[j].GetState()
    ensures InitialState(Lookup(saved, k)) == rows[k].GetState()
  {
    RowStateReloads(rows[k].selectedFile, rows[k].modeIndex, rows[k].background);
  }
}
