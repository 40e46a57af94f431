# MultiWall in Dafny

MultiWall builds one wallpaper for a desktop made of several monitors. Each
monitor gets its own image, display mode (fill, fit, stretch, center or tile)
and background colour. The compositor places every monitor's picture at the
monitor's position on one canvas as large as the whole desktop. For the
preview inside the window, it scales that canvas down. The window around it
holds:

- one settings row per monitor;
- a sidebar of thumbnails for the pictures folder, with a dialog for
  changing that folder;
- the code that saves the settings whenever a monitor changes.

This project models that core and proves properties of the model. It has
one module per concern:

| module | file | what it holds |
|---|---|---|
| `Base` | base.dfy | the Python built-ins the code relies on: `str(n)`, slicing, `split(...)[0]`, `lower()`, `os.path.basename`, `Path.parent`, `Path / name` |
| `Platform` | platform.dfy | the file system and the image decoder, as oracles |
| `Config` | config.dfy | `DEFAULT_OPTIONS`, the per-monitor settings entry, the key `str(index)` |
| `Geometry` | geometry.dfy | normalising the monitor rectangles and sizing the canvas |
| `Raster` | raster.dfy | Pillow's `Image.new` and `paste` over a pixel buffer |
| `Modes` | modes.dfy | `apply_mode_to_image`, including Pillow's thumbnail size and the tile loop |
| `Composer` | composer.dfy | `compose_image`: per-monitor defaults, the paste loop, the preview size |
| `MonitorRows` | monitor_row.dfy | the `MonitorRow` class |
| `Listing` | listing.dfy | `sorted(Path(d).iterdir())` for the entries of one folder |
| `Sidebar` | image_sidebar.dfy | the `ImageSidebar` class and the folder tree of its change-folder dialog |
| `App` | app.dfy | language detection, the default pictures folder, and the `MultiWallApp` window |

A pixel records where it comes from, not an RGBA value. It is one of:

- a solid colour;
- pixel (sx, sy) of a decoded image;
- pixel (sx, sy) of a resampled copy of an image.

So the model states which monitor, which image and which background owns
each canvas pixel, without the colour values resampling produces.
Directory listings, `os.path.exists`, `is_dir` and image decoding are
fields of a `Disk` value that the operations read.

Code that changes state step by step is modelled imperatively:

- the tile loop and the paste loop write into `array2` buffers;
- `MonitorRow`, `ImageSidebar`, the dialog's tree store and `MultiWallApp`
  are classes whose methods update their fields.

Each of those methods is proved against a specification function (`Painted`,
`ModePixel`, `ImagesIn`, `Thumbnails`, `DialogTree`, `StatesOf`). The
properties the program promises are then proved about those functions as
lemmas.

Behaviour of the code worth knowing:

- The preview path (multiwall/composer.py:129-141) only resizes the canvas.
  It draws no monitor labels, and neither does the model.
- A canvas more than 1000 times wider than tall (or the reverse) truncates
  one preview side to 0. Pillow's `resize` refuses a size with a side of 0
  and raises, so `compose_image` fails and `update_preview` shows nothing;
  the model returns the failure `EmptyPreview` (`Composer.CollapseExample`).
- `LANG` is cut at its first `_` but not shortened to two characters, so
  `LANG=C.UTF-8` gives the language `C.UTF-8` (`App.LangKeepsWholeName`).
- In `on_file_selected`, a file the dialog returns without a local path
  clears the selection. `Path(None)` then raises, and the handler swallows
  the error. The selection is lost, while the last directory and the
  listeners are untouched (`MonitorRows.MonitorRow.OnFileSelected`).

## Model

| member | source | states |
|---|---|---|
| Geometry.Normalize | multiwall/composer.py:88-95 | No monitors: a failure, since `min` of nothing raises. Otherwise every rectangle moves by one common vector with its size kept; the smallest x and the smallest y become 0; each canvas side is reached by some monitor and passed by none. |
| Geometry.MonitorsInsideCanvas | multiwall/composer.py:94-99 | Every pixel of every normalised monitor lies inside the canvas. |
| Geometry.RelativePositionsKept | multiwall/composer.py:91 | Normalising keeps the offset between any two monitors. |
| Geometry.SingleMonitorLayout | multiwall/composer.py:88-95 | One monitor moves to (0, 0), and the canvas is exactly its size. |
| Geometry.RotatedNeighbourExample | multiwall/composer.py:88-95 | 1920x1080 beside a rotated 1080x1920 gives a 3000x1920 canvas; the second monitor starts at x = 1920. |
| Geometry.NegativeOriginExample | multiwall/composer.py:88-95 | A monitor at (-1280, -200) shifts both monitors right and down; the canvas is 3200x1280. |
| Raster.NewImage | multiwall/composer.py:99 | `Image.new(size, colour)`: a fresh buffer of exactly that size, with every pixel from the given source. |
| Raster.PasteSource | multiwall/composer.py:58 | `paste` at an offset: pixels inside the pasted box take the source's pixel shifted by the offset; all others keep their old value. |
| Raster.PasteImage | multiwall/composer.py:118 | `canvas.paste(img2, (x, y))`: inside the other buffer's box, pixels come from it; outside it, nothing changes. |
| Modes.ModeFromName | multiwall/composer.py:52-75 | A known mode name selects that mode; any other name selects fill. |
| Modes.ModeNameRoundTrip | multiwall/composer.py:52-73 | Each mode's name is known and selects that mode again. |
| Modes.WidthForHeightBounds | multiwall/composer.py:56 | When the height limits the thumbnail, the new width is at least 1, at most the target and the original, and keeps the aspect ratio to within one pixel. |
| Modes.HeightForWidthBounds | multiwall/composer.py:56 | The same bounds for the new height when the width limits the thumbnail. |
| Modes.ThumbnailSize | multiwall/composer.py:56 | `thumbnail` never enlarges and never exceeds the target. It keeps the size exactly when the image already fits. Otherwise one side meets its bound, with the aspect ratio kept to within one pixel. |
| Modes.FitIsCentred | multiwall/composer.py:55-58 | fit pastes at non-negative offsets and stays inside the target; on each axis the two margins differ by at most one pixel. |
| Modes.CenterOffsetSign | multiwall/composer.py:62-65 | A center offset is negative exactly on an axis where the image is larger than the target. |
| Modes.CoveringModes | multiwall/composer.py:52-75 | fill and stretch show no background pixel; an unknown mode name renders pixel for pixel as fill. |
| Modes.FitPixels | multiwall/composer.py:54-59 | In fit mode, an image that already fits is pasted unscaled at its centred offset, and the background shows exactly outside it. |
| Modes.CenterCoversWhenLarger | multiwall/composer.py:62-67 | In center mode, an image at least as large as the target on both axes leaves no background pixel. |
| Modes.TileOrigins | multiwall/composer.py:70-71 | The k-th tile origin on an axis is k times the image side, and it lies before the target's end. |
| Modes.RangeIndices | multiwall/composer.py:70-71 | `range(start, stop, step)` has an element k exactly when start + k*step < stop. |
| Modes.TilesCoverOnce | multiwall/composer.py:68-73 | Every position on an axis is covered by exactly one tile: the one with index p // step, whose origin is p - p % step. |
| Modes.TileRow | multiwall/composer.py:71-72 | The inner tile loop finishes one band of tiles; rows above it are already done and rows below it still hold the background. |
| Modes.TileImage | multiwall/composer.py:68-73 | The tile branch gives a fresh target-sized buffer whose pixel (x, y) is image pixel (x mod width, y mod height). |
| Modes.ApplyMode | multiwall/composer.py:48-78 | For every mode name, the result is a fresh picture of exactly the target size whose every pixel is what `ModePixel` gives for the selected mode. |
| Composer.Resolve | multiwall/composer.py:102-105 | Monitor i reads the entry under `str(i)`. A missing entry or key gives no file, mode "fill" and background "#000000"; present keys are used as they are. |
| Composer.LoadedPicture | multiwall/composer.py:108-110 | A monitor has an image exactly when its file is set, non-empty and existing, and the file decodes; the image is then the decoded one. |
| Composer.LastMonitorWins | multiwall/composer.py:101-122 | Where monitors overlap, the highest-indexed monitor covering a pixel decides it. |
| Composer.UncoveredKeepsDefault | multiwall/composer.py:99 | A pixel that no monitor covers keeps the canvas colour "#000000". |
| Composer.MonitorWithoutImage | multiwall/composer.py:119-122 | A monitor whose file is unset, missing or undecodable shows its own background colour on every pixel of its region that no later monitor covers. |
| Composer.PreviewSize | multiwall/composer.py:129-132 | Scaling happens only for a non-zero preview side smaller than the canvas's longer side. Each new side is the original side times the preview side over the longer side, rounded down; so no side grows, none exceeds the preview side, and the longer side becomes exactly the preview side. |
| Composer.CollapseCondition | multiwall/composer.py:129-134 | A preview side truncates to 0, which `resize` refuses, exactly when the canvas is scaled and that side times the preview size is below the longer side. |
| Composer.CollapseExample | multiwall/composer.py:129-134 | A 1920x1 canvas previewed at 1000 would be 1000x0, a collapsed preview. |
| Composer.ScaleSide | multiwall/composer.py:132 | `int(side * ratio)` lies between 0 and the preview side, is smaller than the side, and equals the preview side for the longer side. |
| Composer.PreviewExample | multiwall/composer.py:128-141 | A 3840x1080 canvas previewed at 1000 becomes 1000x281. |
| Composer.PasteMonitor | multiwall/composer.py:101-126 | One pass of the monitor loop: the monitor's region gets its fitted picture, or its background when it has no image; every other pixel is kept. |
| Composer.PasteMonitors | multiwall/composer.py:101-126 | After the loop, every canvas pixel is what `Painted` says after all monitors, pasted in index order. |
| Composer.CanvasNotEmpty | multiwall/composer.py:93-95 | Non-empty monitors give a canvas of positive size. |
| Composer.ComposeImage | multiwall/composer.py:80-143 | No monitors: the failure `NoMonitors`. A preview size with a side of 0: the failure `EmptyPreview`, and only then. Otherwise the canvas has the normalised size, every pixel is `Painted` after all monitors, and the result is downscaled exactly when `PreviewSize` says so, to that size, both sides positive. |
| Config.StateKeysDistinct | multiwall/app.py:312 | Distinct monitor indices never share a key `str(index)`. |
| Config.Lookup | multiwall/app.py:214 | `saved.get(str(i), {})`: the stored entry when the key is present, the empty entry otherwise. |
| MonitorRows.IndexOf | multiwall/monitor_row.py:105 | `list.index`: the first position that holds the value. |
| MonitorRows.InitialModeIndex | multiwall/monitor_row.py:104-105 | The drop-down starts at the saved mode's position (default "fill"), or at 0 (fill) when the mode is unknown. |
| MonitorRows.ModeMapIsKnownModes | multiwall/monitor_row.py:95 | The drop-down lists exactly the five modes the compositor knows, each once, and each name maps back to its own position. |
| MonitorRows.StateOf | multiwall/monitor_row.py:218-225 | The state holds the file as it is, the background, and a mode that is one of the five names. |
| MonitorRows.InitialStateRoundTrip | multiwall/monitor_row.py:104-122 | Building a row and reading its state keeps the file, a known mode and a lowercase "#rrggbb" background; it gives "fill" for a missing or unknown mode and "#000000" for a missing background. |
| MonitorRows.SaveReloadIsStable | multiwall/monitor_row.py:104-105 | Rebuilding a row from the state it reported gives the same state. |
| MonitorRows.RowStateReloads | multiwall/monitor_row.py:218-225 | Any state a row can report is rebuilt unchanged. |
| MonitorRows.RowAgreesWithCompositor | multiwall/monitor_row.py:104-105 | The compositor draws a monitor the same from the row's state as from the saved entry the row was built from. |
| MonitorRows.MonitorRow.constructor | multiwall/monitor_row.py:19-126 | A new row reports the initial state built from its saved entry. |
| MonitorRows.MonitorRow.GetState | multiwall/monitor_row.py:211-227 | `get_state` reports the current file, the drop-down's mode (always one of the five) and the colour. |
| MonitorRows.MonitorRow.OnModeChanged | multiwall/monitor_row.py:128-132 | The mode becomes the selected one, file and colour are kept, and the listener is notified. |
| MonitorRows.MonitorRow.OnColorChanged | multiwall/monitor_row.py:134-139 | The colour becomes the chosen one, file and mode are kept, and the listener is notified. |
| MonitorRows.MonitorRow.OnClearImage | multiwall/monitor_row.py:141-146 | The file becomes None and the next state reports none; mode and colour are kept, and the listener is notified. |
| MonitorRows.MonitorRow.OnFileSelected | multiwall/monitor_row.py:175-191 | A chosen local file becomes the selection, its parent becomes the last directory, and the listener is notified. A dismissed dialog changes nothing. A file without a local path clears the selection and changes nothing else. |
| MonitorRows.MonitorRow.SetImageFile | multiwall/monitor_row.py:193-209 | Only an existing path is taken, and then its parent becomes the last directory; otherwise neither changes. When that folder exists, the next file dialog opens in it (`DialogStartFolder`). |
| MonitorRows.DialogStartFolder | multiwall/monitor_row.py:155-158 | The file dialog starts in the last directory exactly when that directory exists; `SetImageFile` states that after the sidebar sets an image this is the image's folder. |
| Listing.StrLeTotal | multiwall/image_sidebar.py:133 | Any two names are ordered one way or the other. |
| Listing.StrLeTransitive | multiwall/image_sidebar.py:133 | The order on names is transitive. |
| Listing.StrLeAntisymmetric | multiwall/image_sidebar.py:133 | Two names ordered both ways are equal. |
| Listing.InsertByName | multiwall/image_sidebar.py:133 | Inserting into a sorted listing keeps it sorted and adds exactly that entry. |
| Listing.SortByName | multiwall/image_sidebar.py:133 | `sorted` gives a listing ordered by name that is a permutation of the input. |
| Listing.SortKeepsEntries | multiwall/image_sidebar.py:133 | Sorting keeps the length, and an entry is in the result exactly when it is in the input. |
| Listing.SortedIsUnique | multiwall/image_sidebar.py:133 | A folder's entries have distinct names, so they have exactly one sorted order. |
| Sidebar.Suffix | multiwall/image_sidebar.py:134 | `Path.suffix` is non-empty exactly when the last dot is neither the first nor the last character; it is then the tail from that dot, with no other dot in it. |
| Sidebar.SuffixOfLower | multiwall/image_sidebar.py:134 | The suffix of the lower-cased name is the lower-cased suffix. |
| Sidebar.ImageFilterIgnoresCase | multiwall/image_sidebar.py:134 | The image filter gives the same answer for a name and its lower-cased form. |
| Sidebar.FilterIgnoresCaseExamples | multiwall/image_sidebar.py:134 | "a.JPG" and "b.Avif" pass the filter. |
| Sidebar.FilterRejectsExamples | multiwall/image_sidebar.py:134 | "c.tiff", the hidden file ".png" and a folder named "d.png" do not pass. |
| Sidebar.ImageEntriesMembers | multiwall/image_sidebar.py:133-135 | The filter keeps exactly the image entries of the listing: regular files with one of the seven extensions. |
| Sidebar.ImageEntriesSorted | multiwall/image_sidebar.py:133-135 | Filtering a sorted listing keeps it sorted. |
| Sidebar.ImageEntriesCount | multiwall/image_sidebar.py:133-135 | The filter keeps each image entry exactly as often as the listing holds it, and no other entry. |
| Sidebar.SortedImageEntries | multiwall/image_sidebar.py:133-135 | Sorting a listing by name and keeping its images gives exactly its image entries, each as often as the listing holds it, in name order. |
| Sidebar.ImagesIn | multiwall/image_sidebar.py:121-141 | A missing or unlistable folder gives no images. Otherwise the result is the paths of the folder's image entries in name order, each entry as often as the listing holds it and no other entry. |
| Sidebar.ImagesInFolder | multiwall/image_sidebar.py:133-135 | Every image found lies directly in the loaded folder: the folder is its parent, and its base name is an image entry's name. |
| Sidebar.ThumbnailLabel | multiwall/image_sidebar.py:214-217 | A name of at most 15 characters is shown whole. A longer one becomes its first 12 characters plus "...", exactly 15 characters. |
| Sidebar.LabelExamples | multiwall/image_sidebar.py:214-217 | "holiday-2024.png" is shown as "holiday-2024..."; "sunset_wide.jpg" is shown whole. |
| Sidebar.Thumbnails | multiwall/image_sidebar.py:146-147 | Thumbnails are made only for images a thumbnail can be made of, never more than the images, each captioned with its truncated basename. |
| Sidebar.ThumbnailsCount | multiwall/image_sidebar.py:146-147 | Each image gets one thumbnail per occurrence in the list when a thumbnail can be made of it, and none otherwise; so a list of distinct images gives at most one thumbnail each. |
| Sidebar.ImageSidebar.constructor | multiwall/image_sidebar.py:20-101 | A new sidebar has loaded its folder: its images are `ImagesIn` that folder, and its thumbnails are made from them. |
| Sidebar.ImageSidebar.CreateThumbnail | multiwall/image_sidebar.py:149-228 | Appends one captioned thumbnail when one can be made, and nothing otherwise. |
| Sidebar.ImageSidebar.ClearFlowbox | multiwall/image_sidebar.py:114-119 | The removal loop leaves no thumbnail. |
| Sidebar.ImageSidebar.CollectImages | multiwall/image_sidebar.py:132-135 | The loop appends the paths of exactly the image entries, in listing order. |
| Sidebar.ImageSidebar.CollectImage | multiwall/image_sidebar.py:134-135 | One pass appends the entry's path exactly when it is an image entry. |
| Sidebar.ImageSidebar.CreateThumbnails | multiwall/image_sidebar.py:146-147 | The loop appends `Thumbnails` of the current images. |
| Sidebar.ImageSidebar.LoadImages | multiwall/image_sidebar.py:110-147 | The images become `ImagesIn` the folder, and the thumbnails are rebuilt from them alone; the folder is kept. |
| Sidebar.ImageSidebar.OnFolderDialogSelect | multiwall/image_sidebar.py:356-364 | A non-empty, existing path becomes the pictures folder and is loaded; any other path leaves folder, images and thumbnails unchanged. |
| Sidebar.VisibleDirs | multiwall/image_sidebar.py:296 | Keeps exactly the entries that qualify for a tree row: directories whose names do not start with '.'. |
| Sidebar.FolderRowShape | multiwall/image_sidebar.py:290-300 | Every row a walk adds is a visible directory found in the listing of some folder, named and pathed after it, deeper than where the walk starts and never deeper than its depth limit. The rows one level down are rows of the walked folder's own visible sub-directories. |
| Sidebar.EntryRowShape | multiwall/image_sidebar.py:295-300 | The same for the rows added by the loop over entries of a folder's listing. |
| Sidebar.SubtreeRowShape | multiwall/image_sidebar.py:296-300 | The same for the rows one listed entry adds. |
| Sidebar.FolderRowsComplete | multiwall/image_sidebar.py:295-298 | Every visible sub-directory of a listable folder gets its row when the walk may go one level down. |
| Sidebar.EntryRowsComplete | multiwall/image_sidebar.py:295-298 | Every visible directory among the entries the loop visits gets its row. |
| Sidebar.WalkFirstLevel | multiwall/image_sidebar.py:290-298 | The rows one level below the walked folder are exactly the rows of that folder's visible sub-directories. |
| Sidebar.LastLevelWalk | multiwall/image_sidebar.py:299-300 | At the last level allowed, the walk lists the visible sub-folders in order and goes no deeper. |
| Sidebar.CommonRowShape | multiwall/image_sidebar.py:317-321 | A common folder's rows: at the top, only common folders under home that exist and are directories; below them, visible directories of some listing at most the limit deep. |
| Sidebar.DialogTreeShape | multiwall/image_sidebar.py:306-321 | The tree starts with the home row. No row is deeper than three levels, every row below the top is a visible directory of some listing, and the other top rows are common folders under home that exist and are directories. |
| Sidebar.FolderTree.constructor | multiwall/image_sidebar.py:267 | A new tree store is empty. |
| Sidebar.FolderTree.AddFolderToTree | multiwall/image_sidebar.py:290-304 | Appends exactly `FolderRows`: nothing at or past the depth limit or for an unlistable folder. |
| Sidebar.FolderTree.AddEntries | multiwall/image_sidebar.py:295-300 | The loop appends each sorted entry's subtree in order. |
| Sidebar.FolderTree.AddEntry | multiwall/image_sidebar.py:296-300 | A visible directory adds its row, then its own walk while the depth allows; any other entry adds nothing. |
| Sidebar.FolderTree.Populate | multiwall/image_sidebar.py:306-321 | The store ends up exactly as `DialogTree`: home with three levels, then each existing common folder with two. |
| Sidebar.FolderTree.AddCommonFolders | multiwall/image_sidebar.py:317-321 | The loop appends each common folder's subtree in list order. |
| Sidebar.FolderTree.AddCommonFolder | multiwall/image_sidebar.py:318-321 | An existing folder under home adds its top row and its walk; otherwise nothing is added. |
| App.DetectSystemLanguage | multiwall/app.py:32-56 | LANGUAGE, when set and not "C", gives at most two characters of its first ':'-separated entry. Otherwise LANG gives everything before its first '_'. Otherwise the locale gives its first two characters. Otherwise "en". |
| App.LanguagePrecedence | multiwall/app.py:33-43 | When LANGUAGE decides, nothing later changes the result; when only LANG decides, the locale does not. |
| App.LanguageListWins | multiwall/app.py:33-37 | LANGUAGE="es_ES:en" gives "es" even with LANG set. |
| App.ExplicitCPassesOn | multiwall/app.py:34-43 | A "C" setting passes on to the next source; with none left, the result is "en". |
| App.LangKeepsWholeName | multiwall/app.py:39-43 | LANG="C.UTF-8" gives "C.UTF-8". |
| App.DefaultPicturesDirectory | multiwall/app.py:88-117 | An existing, non-empty xdg answer wins. Otherwise the first existing candidate under home is chosen, or home itself when none exists. |
| App.SidebarWidth | multiwall/app.py:253-258 | The sidebar gets a quarter of the window, at least 180, capped at three tenths of the window. The cap wins, so the result is at least 180 exactly when the window is at least 600 wide. |
| App.SidebarWidthMonotone | multiwall/app.py:253-258 | A wider window never gets a narrower sidebar. |
| App.StatesOf | multiwall/app.py:311-312 | `gather_states` has one key `str(row.index)` per row and no other key. |
| App.StatesOfDistinct | multiwall/app.py:312 | With distinct indices, each row's state is stored under its own key. |
| App.GatheredStates | multiwall/app.py:311-312 | For rows numbered 0 to n-1, the keys are exactly "0" to str(n-1), each holding that row's state. |
| App.MultiWallApp.constructor | multiwall/app.py:121-134 | The last directory is the saved one, or else the default pictures directory. |
| App.MultiWallApp.BuildRows | multiwall/app.py:211-216 | There is one fresh row per monitor; row k is built from `saved.get(str(k), {})`, numbered k, and shares the last directory. |
| App.MultiWallApp.PollWindowSize | multiwall/app.py:247-265 | A new positive width is recorded and the sidebar set to `SidebarWidth`. An equal or non-positive width changes nothing. The timer always continues. |
| App.MultiWallApp.OnMonitorChanged | multiwall/app.py:336-342 | What is saved: one entry per monitor, "0" to str(n-1), each holding that row's state, plus the last directory. |
| App.MultiWallApp.UpdatePreview | multiwall/app.py:314-334 | The preview is `compose_image` of the monitors and the gathered states at 1000 pixels: it fails for no monitors or a collapsed preview and only then; otherwise canvas size, every pixel, whether it is downscaled and to what size. |
| App.MultiWallApp.SetRowImage | multiwall/app.py:306 | Only row idx can take the file, and only if the file exists. The last directory follows the file. Every other row's state stays the same. |
| App.MultiWallApp.AssignImageToMonitor | multiwall/app.py:303-309 | The same row update, followed by saving the settings that result. |
| App.RestartRestoresRows | multiwall/app.py:211-216 | Rebuilding rows from what `gather_states` saved restores each row's state. |

## Left out

- `open_image_try` (multiwall/composer.py:8-46) is the `decode` oracle of `Disk`. Its format and conversion attempts are not modelled, only whether it yields an image and of what size.
- Pixel values are not modelled: LANCZOS resampling, `ImageOps.fit` cropping, the values `thumbnail` and `resize` produce, and the resized preview canvas. A pixel only records its owner, and a downscaled preview only records its size.
- Alpha is not modelled. `paste(img, pos, img)` uses the image's own alpha as a mask, but the model treats every pasted pixel as covering. This matches opaque images.
- Colours are the "#rrggbb" text the settings carry. `ImageColor.getcolor`, `Gdk.RGBA.parse` and the `int(rgba*255)` hex formatting are not modelled, so neither is a malformed colour that makes the compositor's `getcolor` raise.
- MonitorRows.InitialStateRoundTrip: carries the background text through a row unchanged. The program parses it into a `Gdk.RGBA` (multiwall/monitor_row.py:121-122) and writes it back as lowercase "#rrggbb" (multiwall/monitor_row.py:220), so other spellings come back re-formatted ("#FFAA00" as "#ffaa00", "red" as "#ff0000", "#abc" as "#aabbcc"), and text the parser rejects comes back as some other colour. Only the lowercase "#rrggbb" form, which covers the default and everything `get_state` writes, survives unchanged as the lemma states.
- Modes.ThumbnailSize: follows Pillow's `round_aspect` in exact integer arithmetic, so it may differ by one pixel from the floating-point result on a near tie.
- Composer.PreviewSize: uses the exact ratio `sp / max(total_w, total_h)` with a truncating `int`, so a floating-point product that falls just below an integer can make the source one pixel smaller.
- App.SidebarWidth: treats the factor 0.30 as exactly 3/10, so it may be one pixel larger than `int(w * 0.30)` where the floating-point product falls just below an integer.
- Composer.ComposeImage: requires every monitor to have a positive width and height. A monitor of size zero is not modelled.
- App.MultiWallApp.UpdatePreview: carries the same positive-size requirement. A failure stands for the exception the handler catches; the logging, the RGB conversion and the pixbuf shown in the window are left out.
- App.MultiWallApp.OnMonitorChanged: is the settings payload `save_config` receives. Writing the JSON file, and the preview refresh that runs first, are left out.
- Paths are plain text. `Join` and `Parent` assume an absolute, normalised folder path (starting with '/', no trailing '/' except the root), as every folder the program joins onto is: the xdg answer, `Path.home()` and the tree rows. `Path.home()` is an input.
- Sidebar.ImagesInFolder: assumes listing entry names hold no '/', as names a directory listing returns do.
- Sidebar.ThumbnailsCount: states how often each image gets a thumbnail, not that the thumbnails follow the images' order; `Thumbnails` builds them in that order.
- `lower()` is reduced to ASCII letters. No other character lower-cases to a letter of the seven extensions, so the filter decides the same.
- `is_file()` and `is_dir()` are the kind the listing reports for each entry, after links are followed.
- A folder listing either succeeds or raises before anything is appended. This matches the code, because `sorted(...)` reads the whole listing first.
- Making a thumbnail (GdkPixbuf, with Pillow as a fallback, multiwall/image_sidebar.py:168-206) is the oracle `canThumbnail`. The image widget, tooltip and click handler are left out.
- `on_change_cb(index)` is modelled as the boolean a callback returns, not as a call into the application.
- `on_choose_file`'s dialog, its `IMAGE_FILTERS` file filter (multiwall/monitor_row.py:12, 161-173) and the file button's label are left out. Only the dialog's starting folder is modelled.
- The change-folder dialog's widgets, the tree selection handler, `select_current_folder` and `update_folder_label` are left out. Only the rows of the tree store are modelled, as `TreeRow` with an icon instead of the emoji label.
- `on_image_selected` (multiwall/app.py:271-301) builds a popover of per-monitor actions; this is widget glue. `assign_image_to_monitor`, which those actions call, is modelled.
- `xdg-user-dir PICTURES` is a subprocess call; the model takes its stripped output, or None when it fails, as an input.
- The environment and `locale.getdefaultlocale()` are inputs; a lookup that raises reads as unset.
- Not modelled, because they are OS or file I/O, the wallpaper command, or widget construction:
  - `on_apply` and multiwall/wallpaper_setter.py;
  - multiwall/config.py's load and save (only `DEFAULT_OPTIONS` is used);
  - multiwall/logger.py and multiwall/utils.py;
  - setup.py;
  - i18n set-up, Docker detection and the output path;
  - `build_ui`'s widgets and the GLib timer.
- Logging and the debug PNG written for the preview (multiwall/composer.py:136-140) are side effects without a model.
