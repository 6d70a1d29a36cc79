/** The main window and its three profile widgets. Startup loads the map and
    looks the built-in profiles up in it. Clicking a profile launches the
    widget's list. The edit button runs a dialog on that profile and then
    re-reads the widget's list from the map. */
module Window {
  import opened Wrappers
  import opened Profiles
  import Launcher
  import Editor

  /** A profile widget: its name and the list it launches. */
  datatype Widget = Widget(name: string, paths: seq<Path>)

  /** The running launcher: its widgets, the shared map, the disk. */
  datatype App = App(widgets: seq<Widget>, profiles: Profiles, disk: Disk)

  /** Why startup stops: the file does not parse, or the map lacks a
      built-in profile (the KeyError of the lookup). */
  datatype StartupError = Unreadable(cause: LoadError) | MissingProfile(name: string)

  /** Why re-reading a widget's list after an edit fails: the map has no
      entry of that name. */
  datatype EditError = KeyError(name: string)

  /** Every widget shows the map's list for its name. */
  predicate Synced(app: App)
  {
    forall k :: 0 <= k < |app.widgets| ==>
      app.widgets[k].name in app.profiles && app.widgets[k].paths == app.profiles[app.widgets[k].name]
  }

  predicate DistinctNames(ws: seq<Widget>)
  {
    forall j, k :: 0 <= j < k < |ws| ==> ws[j].name != ws[k].name
  }

  /** What holds of the launcher between user actions: widgets in sync with
      the map, one widget per name, and the file loading back to the map. */
  predicate Valid(app: App)
  {
    Synced(app) && DistinctNames(app.widgets) && Load(app.disk.file) == Ok(app.profiles)
  }

  /** Looking each name up in the map, in order, one widget per name. The
      error is the first name, in lookup order, that the map lacks. */
  function Widgets(m: Profiles, names: seq<string>): (r: Result<seq<Widget>, string>)
    ensures r.Ok? <==> forall n :: n in names ==> n in m
    ensures r.Ok? ==> |r.value| == |names|
    ensures r.Ok? ==> forall k :: 0 <= k < |names| ==> r.value[k] == Widget(names[k], m[names[k]])
    ensures r.Err? ==> r.error in names && r.error !in m
    ensures r.Err? ==> forall n :: n in names[..IndexOf(names, r.error)] ==> n in m
  {
    if names == [] then Ok([])
    else if names[0] !in m then Err(names[0])
    else
      match Widgets(m, names[1..])
      case Err(n) =>
        assert names[..IndexOf(names, n)] == [names[0]] + names[1..][..IndexOf(names[1..], n)];
        Err(n)
      case Ok(ws) =>
        assert forall k :: 1 <= k < |names| ==> names[k] == names[1..][k - 1];
        Ok([Widget(names[0], m[names[0]])] + ws)
  }

  /** Building the main window. A file that does not parse, and a map that
      lacks a built-in profile, stop startup. Otherwise there is one widget
      per built-in profile, each showing the map's list, and nothing is
      written: with no file the map is the built-in default and the file
      stays absent. */
  function Startup(disk: Disk): (r: Result<App, StartupError>)
    ensures (r.Err? && r.error.Unreadable?) <==> disk.file.Garbled?
    ensures disk.file.Written? ==> (r.Ok? <==> forall n :: n in DefaultNames ==> n in disk.file.content)
    ensures disk.file.Absent? ==> r.Ok? && r.value.profiles.Keys == {"Estudo", "Jogos", "Trabalho"}
    ensures disk.file.Absent? ==> forall n :: n in r.value.profiles ==> r.value.profiles[n] == []
    ensures r.Ok? ==> r.value.disk == disk
    ensures r.Ok? ==> Valid(r.value)
    ensures r.Ok? ==> |r.value.widgets| == |DefaultNames|
    ensures r.Ok? ==> forall k :: 0 <= k < |DefaultNames| ==> r.value.widgets[k].name == DefaultNames[k]
  {
    match Load(disk.file)
    case Err(e) => Err(Unreadable(e))
    case Ok(m) =>
      match Widgets(m, DefaultNames)
      case Err(n) => Err(MissingProfile(n))
      case Ok(ws) => Ok(App(ws, m, disk))
  }

  /** The edit button of widget `k`: open a dialog on a copy of the
      widget's list, run the user's button presses, then re-read the
      widget's list from the map. */
  function EditPrograms(app: App, k: nat, actions: seq<Editor.Action>): (r: Result<App, EditError>)
    requires k < |app.widgets|
    ensures app.widgets[k].name in app.profiles ==> r.Ok?
    ensures r.Err? ==> r.error.name == app.widgets[k].name
    ensures r.Ok? ==> |r.value.widgets| == |app.widgets|
    ensures r.Ok? ==> forall j :: 0 <= j < |app.widgets| && j != k ==> r.value.widgets[j] == app.widgets[j]
    ensures r.Ok? ==> r.value.widgets[k].name == app.widgets[k].name
    ensures r.Ok? ==> app.widgets[k].name in r.value.profiles
    ensures r.Ok? ==> r.value.widgets[k].paths == r.value.profiles[app.widgets[k].name]
    ensures r.Ok? ==> forall n :: n in app.profiles && n != app.widgets[k].name ==> n in r.value.profiles && r.value.profiles[n] == app.profiles[n]
  {
    var w := app.widgets[k];
    var s := Editor.Run(Editor.Session(Editor.Open(w.name, w.paths), app.profiles, app.disk), actions);
    if w.name in s.profiles then
      Ok(App(app.widgets[k := Widget(w.name, s.profiles[w.name])], s.profiles, s.disk))
    else
      Err(KeyError(w.name))
  }

  /** An edit keeps the launcher valid. It never fails, keeps the set of
      profiles, and changes no profile but the edited one. */
  lemma EditKeepsValid(app: App, k: nat, actions: seq<Editor.Action>)
    requires Valid(app) && k < |app.widgets|
    ensures EditPrograms(app, k, actions).Ok?
    ensures Valid(EditPrograms(app, k, actions).value)
    ensures EditPrograms(app, k, actions).value.profiles.Keys == app.profiles.Keys
  {
    var w := app.widgets[k];
    var s0 := Editor.Session(Editor.Open(w.name, w.paths), app.profiles, app.disk);
    assert Editor.Valid(s0);
    Editor.RunKeepsValid(s0, actions);
    var app' := EditPrograms(app, k, actions).value;
    forall j | 0 <= j < |app'.widgets|
      ensures app'.widgets[j].name in app'.profiles && app'.widgets[j].paths == app'.profiles[app'.widgets[j].name]
    {
      if j != k {
        assert app.widgets[j].name != w.name;
      }
    }
  }

  /** Clicking widget `k`: launch its list, given one OS outcome per path. */
  function Activate(app: App, k: nat, outcomes: seq<Launcher.Outcome>): (trace: seq<Launcher.Event>)
    requires k < |app.widgets| && |outcomes| == |app.widgets[k].paths|
    ensures Launcher.Attempts(trace) == app.widgets[k].paths
    ensures Synced(app) ==> Launcher.Attempts(trace) == app.profiles[app.widgets[k].name]
  {
    Launcher.Launch(app.widgets[k].paths, outcomes)
  }
}
