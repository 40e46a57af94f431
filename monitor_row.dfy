/**
 * The per-monitor settings row (monitor_row.py, class `MonitorRow`): the
 * chosen file, the display-mode drop-down and the background colour of one
 * monitor, with the callbacks that change them and `get_state`, which
 * reports them in the shape the compositor reads.
 *
 * The widgets are reduced to the state they hold: the drop-down to its
 * selected index, the colour button to its colour. `on_change_cb(index)` is
 * reported as a boolean result of each callback.
 */
module MonitorRows {
  import opened Base
  import opened Config
  import opened Platform
  import opened Modes
  import Composer

  /** `self.mode_map`: drop-down position to mode name. */
  const ModeMap: seq<string> := ["fill", "fit", "stretch", "center", "tile"]

  /** `xs.index(x)`: the first position holding x. */
  function IndexOf(xs: seq<string>, x: string): (i: nat)
    requires x in xs
    ensures i < |xs| && xs[i] == x
    ensures forall j :: 0 <= j < i ==> xs[j] != x
  {
    if xs[0] == x then 0 else 1 + IndexOf(xs[1..], x)
  }

  /**
   * The drop-down's initial position: where the saved mode (default "fill")
   * sits in the mode map, or 0 when it is not there.
   */
  function InitialModeIndex(mode: Option<string>): (i: nat)
    ensures i < |ModeMap|
    ensures mode.GetOr("fill") in ModeMap ==> ModeMap[i] == mode.GetOr("fill")
    ensures mode.GetOr("fill") !in ModeMap ==> i == 0 && ModeMap[i] == "fill"
  {
    var m := mode.GetOr(DefaultMode);
    if m in ModeMap then IndexOf(ModeMap, m) else 0
  }

  /** The drop-down offers exactly the modes the compositor knows, each once. */
  lemma ModeMapIsKnownModes()
    ensures forall m :: m in ModeMap <==> m in KnownModeNames
    ensures forall i, j :: 0 <= i < j < |ModeMap| ==> ModeMap[i] != ModeMap[j]
    ensures forall i :: 0 <= i < |ModeMap| ==> InitialModeIndex(Some(ModeMap[i])) == i
  {
    forall i | 0 <= i < |ModeMap|
      ensures InitialModeIndex(Some(ModeMap[i])) == i
    {
      var k := InitialModeIndex(Some(ModeMap[i]));
      assert ModeMap[k] == ModeMap[i];
    }
  }

  /** The dict `get_state` returns for a file, a drop-down position and a colour. */
  function StateOf(file: Option<string>, modeIndex: nat, background: Color): (st: MonitorConfig)
    requires modeIndex < |ModeMap|
    ensures st.file == file && st.background == Some(background)
    ensures st.mode.Some? && st.mode.value in KnownModeNames
  {
    MonitorConfig(file, Some(ModeMap[modeIndex]), Some(background))
  }

  /** The state of a freshly built row, given the saved entry it was built from. */
  function InitialState(initial: MonitorConfig): MonitorConfig {
    StateOf(initial.file, InitialModeIndex(initial.mode), initial.background.GetOr(DefaultBackground))
  }

  /**
   * Building a row from a saved entry and reading it back keeps the file,
   * keeps a known mode and the background text, and fills in "fill" and
   * "#000000" for what is missing or unknown. Colours are carried as text,
   * so this matches the program for the lowercase "#rrggbb" form that
   * `get_state` itself writes.
   */
  lemma InitialStateRoundTrip(initial: MonitorConfig)
    ensures InitialState(initial).file == initial.file
    ensures initial.mode.Some? && initial.mode.value in KnownModeNames ==> InitialState(initial).mode == initial.mode
    ensures initial.mode.None? || initial.mode.value !in KnownModeNames ==> InitialState(initial).mode == Some("fill")
    ensures initial.background.Some? ==> InitialState(initial).background == initial.background
    ensures initial.background.None? ==> InitialState(initial).background == Some("#000000")
  {
    ModeMapIsKnownModes();
  }

  /** Saving a row and building it again from what was saved gives the same row. */
  lemma SaveReloadIsStable(initial: MonitorConfig)
    ensures InitialState(InitialState(initial)) == InitialState(initial)
  {
    var st := InitialState(initial);
    ModeMapIsKnownModes();
    assert st.mode.value in ModeMap;
  }

  /** A row rebuilt from the state it reported reports that state again. */
  lemma RowStateReloads(file: Option<string>, modeIndex: nat, background: Color)
    requires modeIndex < |ModeMap|
    ensures InitialState(StateOf(file, modeIndex, background)) == StateOf(file, modeIndex, background)
  {
    ModeMapIsKnownModes();
  }

  /**
   * The row and the compositor read a saved entry alike: the compositor
   * draws monitor `index` the same from the row's state as from the entry
   * the row was built from, an unknown mode being fill for both.
   */
  lemma RowAgreesWithCompositor(index: nat, initial: MonitorConfig)
    ensures
      var fromRow := Composer.Resolve(map[StateKey(index) := InitialState(initial)], index);
      var fromSaved := Composer.Resolve(map[StateKey(index) := initial], index);
      && fromRow.file == fromSaved.file
      && fromRow.background == fromSaved.background
      && ModeFromName(fromRow.mode) == ModeFromName(fromSaved.mode)
  {
    ModeMapIsKnownModes();
  }

  /** `self.app.last_directory`, shared by every row and the application. */
  class LastDirectory {
    var path: string

    constructor(path: string)
      ensures this.path == path
    {
      this.path := path;
    }
  }

  /** How the file dialog ended: `open_finish` raised, or it gave a file with or without a local path. */
  datatype DialogOutcome = Dismissed | Chosen(localPath: Option<string>)

  class MonitorRow {
    const index: nat
    const app: LastDirectory
    var selectedFile: Option<string>
    /** The drop-down's selected position. */
    var modeIndex: nat
    /** The colour button's colour. */
    var background: Color

    predicate Valid()
      reads this
    {
      modeIndex < |ModeMap|
    }

    /** `MonitorRow(index, geom, initial, on_change_cb, app)` */
    constructor(index: nat, initial: MonitorConfig, app: LastDirectory)
      ensures Valid() && this.index == index && this.app == app
      ensures GetState() == InitialState(initial)
    {
      this.index := index;
      this.app := app;
      selectedFile := initial.file;
      modeIndex := InitialModeIndex(initial.mode);
      background := initial.background.GetOr(DefaultBackground);
    }

    /** `get_state()`: file, mode name and background, the mode always one of the five. */
    function GetState(): (st: MonitorConfig)
      requires Valid()
      reads this
      ensures st.file == selectedFile && st.background == Some(background)
      ensures st.mode == Some(ModeMap[modeIndex]) && st.mode.value in KnownModeNames
    {
      StateOf(selectedFile, modeIndex, background)
    }

    /** `on_mode_changed`: the drop-down moved to position `selected`. */
    method OnModeChanged(selected: nat) returns (notified: bool)
      requires Valid() && selected < |ModeMap|
      modifies this
      ensures Valid() && notified
      ensures modeIndex == selected && GetState().mode == Some(ModeMap[selected])
      ensures selectedFile == old(selectedFile) && background == old(background)
    {
      modeIndex := selected;
      notified := true;
    }

    /** `on_color_changed`: the colour button now holds `color`. */
    method OnColorChanged(color: Color) returns (notified: bool)
      requires Valid()
      modifies this
      ensures Valid() && notified
      ensures background == color && GetState().background == Some(color)
      ensures selectedFile == old(selectedFile) && modeIndex == old(modeIndex)
    {
      background := color;
      notified := true;
    }

    /** `on_clear_image`: forget the file; the next state reports none. */
    method OnClearImage() returns (notified: bool)
      requires Valid()
      modifies this
      ensures Valid() && notified
      ensures selectedFile == None && GetState().file == None
      ensures modeIndex == old(modeIndex) && background == old(background)
    {
      selectedFile := None;
      notified := true;
    }

    /**
     * `on_file_selected`: a chosen file with a local path becomes the
     * selection and its parent the last directory. A dismissed dialog
     * changes nothing. A chosen file without a local path clears the
     * selection, and then `Path(None)` raises and the handler swallows it,
     * so neither the directory nor the listeners hear of it.
     */
    method OnFileSelected(outcome: DialogOutcome) returns (notified: bool)
      requires Valid()
      modifies this, app
      ensures Valid()
      ensures modeIndex == old(modeIndex) && background == old(background)
      ensures outcome.Dismissed? ==> selectedFile == old(selectedFile) && app.path == old(app.path) && !notified
      ensures outcome.Chosen? && outcome.localPath.None? ==>
        selectedFile == None && app.path == old(app.path) && !notified
      ensures outcome.Chosen? && outcome.localPath.Some? ==>
        selectedFile == outcome.localPath && app.path == Parent(outcome.localPath.value) && notified
    {
      notified := false;
      if outcome.Chosen? {
        selectedFile := outcome.localPath;
        if selectedFile.Some? {
          app.path := Parent(selectedFile.value);
          notified := true;
        }
      }
    }

    /**
     * `set_image_file(file_path)`, used by the sidebar: only an existing
     * path is taken, and then its parent becomes the last directory;
     * otherwise nothing changes.
     */
    method SetImageFile(path: string, disk: Disk)
      requires Valid()
      modifies this, app
      ensures Valid()
      ensures modeIndex == old(modeIndex) && background == old(background)
      ensures disk.pathExists(path) ==> selectedFile == Some(path) && app.path == Parent(path)
      ensures !disk.pathExists(path) ==> selectedFile == old(selectedFile) && app.path == old(app.path)
      ensures disk.pathExists(path) && disk.pathExists(Parent(path)) ==> DialogStartFolder(app.path, disk) == Some(Parent(path))
    {
      if disk.pathExists(path) {
        selectedFile := Some(path);
        app.path := Parent(path);
      }
    }
  }

  /**
   * `on_choose_file`: the dialog opens in the last directory when it
   * exists, else where GTK decides. After the sidebar sets an image, the
   * next dialog opens in that image's folder (`SetImageFile`).
   */
  function DialogStartFolder(lastDirectory: string, disk: Disk): (folder: Option<string>)
    ensures folder.Some? <==> disk.pathExists(lastDirectory)
    ensures folder.Some? ==> folder.value == lastDirectory
  {
    if disk.pathExists(lastDirectory) then Some(lastDirectory) else None
  }
}
