# Deckfly profile store and launcher, modelled in Dafny

Deckfly is a small desktop launcher. Its window shows three profiles:
`Estudo`, `Jogos` and `Trabalho`. Each profile has an ordered list of
program paths. Clicking a profile starts every program on its list. The
profile's "Editar" button opens a dialog where paths can be added and
removed. The map from profile name to paths is kept in `perfis.json`, and
the whole map is rewritten after every single edit.

This project models the logic underneath the GUI:

- `wrappers.dfy` (`Wrappers`): `Option` and `Result`. They stand for the
  Python exceptions and the lookups that may find nothing.
- `profiles.dfy` (`Profiles`): the map and its defaults.
  - The profile file is abstract: absent, unparsable, or holding a map.
    A `Disk` pairs that file with a log of every write made to it, so
    "nothing was saved" can be observed.
  - Loading and saving (`carregar_perfis`, `salvar_perfis`).
  - Python's `list.remove`, which drops the first element equal to the
    value.
  - The store-level meaning of adding and removing a path.
- `launcher.dfy` (`Launcher`): `abrir_programas`.
  - It returns a trace of attempts and warning boxes.
  - Each attempt's answer from the OS is an input (`Outcome`).
- `editor.dfy` (`Editor`): the edit dialog `EditarDialog`.
  - The dialog keeps a copy of the profile's list and a list widget.
    Widget items have identities, so Qt's `row(item)` and `takeItem` are
    modelled as they behave.
  - Modelled operations: the add and remove handlers, the removal loop
    with its per-item save, and a whole dialog session.
  - `Valid` is the invariant every reachable session keeps:
    - the widget and the list hold the same multiset of paths;
    - the shared map holds the dialog's list;
    - the file loads back to the map.
- `window.dfy` (`Window`): `MainWindow` and `PerfilWidget`.
  - Startup looks up the three built-in profiles.
  - The edit button runs a dialog and then re-reads the widget's list
    (`editar_programas`).
  - Clicking a profile launches the widget's list.

Each pass of the removal loop removes the first equal path from the list
(`list.remove`, main.py:125), then the selected row from the widget
(main.py:126). When a path appears twice, the widget and the list can end
up in different orders. What is saved is the list.
`Editor.DuplicateRemovalDiverges` proves this for a list `[x, y, x]` with
`x != y`, with the rows as opened and the bottom row selected.
`Editor.OrderKeptWithoutDuplicates` proves that without duplicates the
two orders stay equal. The multiset invariant
(`Editor.Mirrors`) is why `list.remove` never raises:
`Editor.RemoveSelectedNeverRaises` proves it.

## Model

| member | source | states |
|---|---|---|
| Profiles.Defaults | main.py:21 | With no file, the map has exactly the keys `Estudo`, `Jogos` and `Trabalho`, each with an empty list |
| Profiles.Load | main.py:16-21 | Loading fails exactly when the file does not parse. With no file, it yields the three built-in profiles with empty lists |
| Profiles.Save | main.py:23-25 | Saving makes the file load back to exactly the saved map. It adds exactly one entry, that map, to the write log and keeps earlier entries |
| Profiles.RemoveFirst | main.py:125 | `list.remove` raises exactly when the value is absent. Otherwise it drops exactly the first equal element: the result is the list with the position of the first occurrence cut out, so it is one shorter, the other elements keep their order, and exactly one copy of the value leaves the multiset |
| Profiles.Append | main.py:115-117 | Adding to an existing profile puts the path at the end of its list. The key set and every other profile are unchanged |
| Profiles.RemovePath | main.py:125-127 | Removing from an existing profile fails exactly when the path is not listed. Otherwise that profile's list loses exactly its first occurrence of the path, with the other paths in their order, so one copy leaves its multiset. The key set and other profiles are unchanged |
| Launcher.Launch | main.py:75-80 | Every path is attempted exactly once, in list order. There is one warning per failed attempt, each right after the attempt of the path it names, and every failure is reported with its path and error |
| Launcher.LaunchAppend | main.py:76-80 | Launching a concatenation is launching the two parts in turn, so a failure never stops or alters the attempts after it |
| Launcher.LaunchIsolatesFailure | main.py:76-80 | `/valid/a`, `/does/not/exist`, `/valid/b` with the middle one failing yields three attempts in order and a single warning, for the middle path |
| Editor.Open | main.py:90-100 | The dialog starts with a copy of the profile's list and a widget showing the same paths, each item distinct |
| Editor.OpenDuplicateList | main.py:96-100 | Opening on `[x, y, x]` gives three widget items with identities 0, 1, 2 in list order |
| Editor.Commit | main.py:117-118 | The end of every edit: the map's entry for the dialog's profile becomes the dialog's list, other profiles and keys stay, the map is written once and the file loads back to it. Each removal pass ends with the same step (main.py:127-128) |
| Editor.AddProgram | main.py:112-118 | Unless the input box is confirmed with non-empty text, nothing changes and nothing is saved. Otherwise the path goes at the end of the list and of the widget, only the edited profile's entry changes, and the map is saved exactly once |
| Editor.AddAppends | main.py:115-118 | In a valid session, a confirmed add is the store-level append on the edited profile and keeps the session valid |
| Editor.RowOf | main.py:126 | Qt's `row(item)` is -1 exactly when no row holds the item, and otherwise is the row holding it |
| Editor.TakeAt | main.py:126 | Qt's `takeItem`: the taken row goes, rows above it stay in place, rows below it move up one in order, and a row outside the widget takes nothing |
| Editor.Selected | main.py:121 | The selected items are widget items with a selected identity, and every row with a selected identity is among them |
| Editor.SelectedDistinct | main.py:121 | A selection never holds the same widget item twice |
| Editor.RemoveOne | main.py:125-128 | One loop pass raises exactly when the list lacks the item's text. Otherwise it removes the first equal path, takes the item's row out of the widget with the other rows keeping their order, writes the list into the map without touching other profiles, and saves once |
| Editor.RemoveItems | main.py:124-128 | The removal loop writes the file once per path it removed and keeps every earlier write. A loop that ends normally removes one path per item: exactly one copy of each item's text leaves the list. Only the edited profile's entry can change |
| Editor.RemoveSelected | main.py:120-128 | With no selected row, nothing changes and nothing is saved. In all cases there is one write per removed path and no other profile changes. When the loop ends normally, exactly one copy of each selected row's path has left the list |
| Editor.RemoveOneValid | main.py:124-128 | In a valid session, removing a widget row never raises and keeps the session valid: the multiset mirror, identity freshness, map sync and file sync. The widget's items afterwards are exactly the old ones without that item |
| Editor.RemoveAgreesWithStore | main.py:125-127 | In a valid session, removing a widget row changes the shared map exactly as the store-level removal of that row's path from the edited profile |
| Editor.RemoveSelectedNeverRaises | main.py:120-128 | In a valid session, "remove selected" never raises, keeps the session valid, and removes one path per selected row. The widget's items afterwards are exactly the old ones whose identity was not selected |
| Editor.RemoveSingleItem | main.py:120-128 | When the selection is one widget item, "remove selected" is exactly one loop pass over it: it raises with that item's path exactly when the pass raises, and otherwise ends in the session the pass leaves |
| Editor.OrderKeptWithoutDuplicates | main.py:125-126 | When widget order equals list order and no path repeats, removing a row keeps the two orders equal |
| Editor.DuplicateRemovalDiverges | main.py:120-128 | For any two different paths `x` and `y` and widget rows as opened on `[x, y, x]`, selecting the bottom row and removing it ends normally with the widget showing `[x, y]`, while the list, the map's entry and the saved file hold `[y, x]` |
| Editor.Apply | main.py:104-105 | A button press keeps the dialog's profile. It keeps every profile and changes no profile but the edited one, and it only appends to the write log |
| Editor.Run | main.py:83-84 | A whole dialog session changes no profile but the edited one, drops no profile, and only appends to the write log |
| Editor.RunKeepsValid | main.py:96-128 | Every dialog session that starts valid stays valid |
| Window.Widgets | main.py:147-151 | The lookup succeeds exactly when every name is in the map, and then yields one widget per name with the map's list. Otherwise the error is the first missing name in lookup order |
| Window.Startup | main.py:145-151 | Startup fails on an unparsable file. It succeeds on a written file exactly when all three built-in profiles are present, and always succeeds with no file, using the defaults. It never writes, and it yields widgets in sync with the map and the file |
| Window.EditPrograms | main.py:82-86 | After the dialog closes, the edited widget's list equals the map's entry for its profile. Other widgets and other profiles are unchanged, and editing a known profile never fails |
| Window.EditKeepsValid | main.py:82-86 | An edit on a valid launcher succeeds, keeps the key set, and leaves every widget in sync with the map and the file in sync with the map |
| Window.Activate | main.py:75-80 | Clicking a profile attempts exactly that widget's list, which in a synced launcher is the map's entry for the profile |

## Left out

- Qt presentation: layout, styling, icons, the window, and the hover show and hide of the edit button (main.py:34-73, main.py:131-143). None of it affects the profile data.
- JSON parsing and formatting, and real file access (`os.path.exists`, `open`, `json.load`, `json.dump` with indentation). The file is abstract: absent, unparsable, or holding a map. A file that parses as JSON but is not an object of string lists is counted as unparsable. The code would fail on it at the profile lookups, or accept it.
- Write failures of `salvar_perfis` (full disk, permissions): `Profiles.Save` always succeeds. In the code such an error escapes the button handler after the in-memory map has already changed.
- `subprocess.Popen` and process creation: each attempt's success or failure, with its error text, is an input. Nothing after a successful start is modelled, as in the code.
- The wording of the warning box: a warning is modelled as the failed path together with the error text.
- Window.EditPrograms: states that editing a profile the map knows never fails, but not exactly when editing an unknown one fails. The launcher only edits the three profiles startup found.
- Selection order: `Editor.Selected` takes the selected items in row order. Qt returns them in selection order, which only matters when several rows are selected, and the widget's default mode selects one row at a time.
- An exception escaping a dialog button handler is modelled as leaving the dialog open with the state reached so far (`Editor.Apply`). That is how the toolkit treats an exception in a handler. `Editor.RunKeepsValid` shows it never happens in a valid session.
- Removal by position: the code never removes by position (main.py:125), so it is not modelled.
- Concurrency: a second running instance overwriting the same file.
