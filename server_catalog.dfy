/**
  The server's catalogue logic (server.js): the fixed table of themes and the lookup of one
  theme by id, the validation of a save request and the record it produces, and the listing of
  the saved projects, newest first.
*/
module ServerCatalog {
  import opened Wrappers
  import opened JsStrings

  // ---------------------------------------------------------------------------------------
  // Themes
  // ---------------------------------------------------------------------------------------

  datatype Palette = Palette(primary: string, secondary: string, accent: string,
                             highlight: string, background: string, text: string)

  datatype Fonts = Fonts(header: string, body: string)

  datatype Theme = Theme(id: string, name: string, colors: Palette, fonts: Fonts)

  /** `THEMES`, in its order. */
  const Themes: seq<Theme> := [
    Theme("cherry-blossom", "Soft Cherry Blossom",
      Palette("#ffb3d9", "#ffc9e3", "#ffe0f0", "#fff0f7", "#fffafc", "#5a3a4a"),
      Fonts("'Pacifico', cursive", "'Quicksand', sans-serif")),
    Theme("lavender", "Lavender Dreams",
      Palette("#d4b5f0", "#e6d4ff", "#f0e6ff", "#f5f0ff", "#fdfbff", "#4a3a5a"),
      Fonts("'Poppins', sans-serif", "'Nunito', sans-serif")),
    Theme("mint", "Mint Breeze",
      Palette("#b3f0d4", "#c9ffe6", "#e0fff0", "#f0fff7", "#fafffc", "#3a5a4a"),
      Fonts("'Raleway', sans-serif", "'Quicksand', sans-serif")),
    Theme("peach", "Peach Sunset",
      Palette("#ffc9b3", "#ffe0d4", "#fff0e6", "#fff7f0", "#fffcfa", "#5a4a3a"),
      Fonts("'Patrick Hand', cursive", "'Nunito', sans-serif")),
    Theme("blue", "Baby Blue Sky",
      Palette("#b3d9ff", "#d4e6ff", "#e6f0ff", "#f0f7ff", "#fafcff", "#3a4a5a"),
      Fonts("'Playfair Display', serif", "'Raleway', sans-serif")),
    Theme("lemon", "Lemon Cream",
      Palette("#fff0b3", "#fff7d4", "#fffce6", "#fffef0", "#fffffa", "#5a5a3a"),
      Fonts("'Poppins', sans-serif", "'Quicksand', sans-serif")),
    Theme("rose", "Rose Quartz",
      Palette("#ffcce0", "#ffe0eb", "#fff0f5", "#fff7fa", "#fffcfd", "#5a3a45"),
      Fonts("'Pacifico', cursive", "'Patrick Hand', cursive")),
    Theme("lilac", "Lilac Whisper",
      Palette("#e6ccff", "#f0e0ff", "#f7f0ff", "#fbf7ff", "#fefcff", "#4a3a5a"),
      Fonts("'Raleway', sans-serif", "'Nunito', sans-serif"))
  ]

  predicate DistinctIds(ts: seq<Theme>) {
    forall i, j :: 0 <= i < j < |ts| ==> ts[i].id != ts[j].id
  }

  /** No two entries of the table share an id. */
  lemma ThemeIdsDistinct()
    ensures |Themes| == 8 && DistinctIds(Themes)
  {
    var ids := seq(|Themes|, i requires 0 <= i < |Themes| => Themes[i].id);
    assert ids == ["cherry-blossom", "lavender", "mint", "peach", "blue", "lemon", "rose", "lilac"];
    forall i, j | 0 <= i < j < |Themes| ensures Themes[i].id != Themes[j].id {
      assert ids[i] != ids[j] by {
        if |ids[i]| == |ids[j]| {
          assert ids[i][1] != ids[j][1] || ids[i][0] != ids[j][0];
        }
      }
    }
  }

  /** `ts.find(t => t.id === id)`: the first entry with that id. */
  function FindTheme(ts: seq<Theme>, id: string): (r: Option<Theme>)
    ensures r.Some? ==> r.value in ts && r.value.id == id
    ensures r.None? <==> forall i :: 0 <= i < |ts| ==> ts[i].id != id
  {
    if ts == [] then None
    else if ts[0].id == id then Some(ts[0])
    else FindTheme(ts[1..], id)
  }

  /** The entry found is the first one with the id: every entry before it has another id. */
  lemma {:induction false} FindThemeFirst(ts: seq<Theme>, id: string, k: nat)
    requires k < |ts| && ts[k].id == id && forall i :: 0 <= i < k ==> ts[i].id != id
    ensures FindTheme(ts, id) == Some(ts[k])
  {
    if k > 0 {
      FindThemeFirst(ts[1..], id, k - 1);
    }
  }

  /** With distinct ids, every entry is found by its own id. */
  lemma FindEveryTheme(k: nat)
    requires k < |Themes|
    ensures FindTheme(Themes, Themes[k].id) == Some(Themes[k])
  {
    ThemeIdsDistinct();
    FindThemeFirst(Themes, Themes[k].id, k);
  }

  /** `GET /theme/:id`: the theme, or a not-found error (status 404). */
  function ThemeById(id: string): (r: Result<Theme, string>)
    ensures r.Ok? <==> exists k :: 0 <= k < |Themes| && Themes[k].id == id
    ensures r.Ok? ==> r.value in Themes && r.value.id == id
    ensures r.Err? ==> r.error == "Theme not found"
  {
    match FindTheme(Themes, id)
    case Some(t) => Ok(t)
    case None => Err("Theme not found")
  }

  // ---------------------------------------------------------------------------------------
  // Saving a project
  // ---------------------------------------------------------------------------------------

  /** The stored record of a project. */
  datatype Project = Project(id: string, name: string, theme: string, html: string, createdAt: string)

  /** The fields of a save request's body; a field may be absent. */
  datatype SaveRequest = SaveRequest(name: Option<string>, html: Option<string>, theme: Option<string>)

  /** `POST /save-project`: a request without a name or without markup is refused (status
      400); otherwise the record gets the id and the timestamp the handler takes from the
      clock, and the theme `default` when none is given. */
  function SaveProject(req: SaveRequest, id: string, createdAt: string): (r: Result<Project, string>)
    ensures r.Err? <==> !Truthy(req.name) || !Truthy(req.html)
    ensures r.Err? ==> r.error == "Missing name or html"
    ensures r.Ok? ==> r.value.id == id && r.value.createdAt == createdAt
    ensures r.Ok? ==> r.value.name == req.name.value && r.value.html == req.html.value
    ensures r.Ok? ==> r.value.theme != "" && (Truthy(req.theme) ==> r.value.theme == req.theme.value)
    ensures r.Ok? && !Truthy(req.theme) ==> r.value.theme == "default"
  {
    if !Truthy(req.name) || !Truthy(req.html) then Err("Missing name or html")
    else Ok(Project(id, req.name.value, OrElse(req.theme, "default"), req.html.value, createdAt))
  }

  /** The file a project is stored in. */
  function FileName(id: string): string {
    id + ".json"
  }

  // ---------------------------------------------------------------------------------------
  // Listing the projects
  // ---------------------------------------------------------------------------------------

  datatype Summary = Summary(id: string, name: string, theme: string, createdAt: string)

  function Summarize(p: Project): Summary {
    Summary(p.id, p.name, p.theme, p.createdAt)
  }

  predicate EndsWith(s: string, suffix: string) {
    |suffix| <= |s| && s[|s| - |suffix|..] == suffix
  }

  /** The summaries of the `.json` entries of the directory, in directory order; each entry is
      a file name and the record its content parses to. */
  function Summaries(entries: seq<(string, Project)>): (r: seq<Summary>)
    ensures |r| <= |entries|
  {
    if entries == [] then []
    else
      (if EndsWith(entries[0].0, ".json") then [Summarize(entries[0].1)] else [])
      + Summaries(entries[1..])
  }

  /** `a <= b` in the code-unit order of `localeCompare` on timestamps of one format. */
  predicate LexLe(a: string, b: string)
    decreases |a|
  {
    a == [] || (b != [] && (a[0] < b[0] || (a[0] == b[0] && LexLe(a[1..], b[1..]))))
  }

  lemma {:induction false} LexLeTotal(a: string, b: string)
    ensures LexLe(a, b) || LexLe(b, a)
    decreases |a|
  {
    if a != [] && b != [] && a[0] == b[0] {
      LexLeTotal(a[1..], b[1..]);
    }
  }

  lemma {:induction false} LexLeTransitive(a: string, b: string, c: string)
    requires LexLe(a, b) && LexLe(b, c)
    ensures LexLe(a, c)
    decreases |a|
  {
    if a != [] && a[0] == b[0] && b[0] == c[0] {
      LexLeTransitive(a[1..], b[1..], c[1..]);
    }
  }

  /** Newest first: each summary's timestamp is at least the next one's. */
  predicate NewestFirst(s: seq<Summary>) {
    forall i :: 0 <= i < |s| - 1 ==> LexLe(s[i + 1].createdAt, s[i].createdAt)
  }

  /** Puts `x` in front of the first summary that is not newer than it, so that of two equal
      timestamps the one listed first stays first. */
  function Insert(x: Summary, s: seq<Summary>): (r: seq<Summary>)
    ensures multiset(r) == multiset(s) + multiset{x}
    ensures |r| == |s| + 1
  {
    if s == [] then [x]
    else if LexLe(s[0].createdAt, x.createdAt) then [x] + s
    else
      assert s == [s[0]] + s[1..];
      [s[0]] + Insert(x, s[1..])
  }

  /** The first summary after an insertion is `x` or the previous first one. */
  lemma InsertHead(x: Summary, s: seq<Summary>)
    ensures Insert(x, s)[0] == x || (s != [] && Insert(x, s)[0] == s[0])
  {
  }

  lemma {:induction false} InsertSorted(x: Summary, s: seq<Summary>)
    requires NewestFirst(s)
    ensures NewestFirst(Insert(x, s))
  {
    if s != [] && !LexLe(s[0].createdAt, x.createdAt) {
      LexLeTotal(s[0].createdAt, x.createdAt);
      InsertSorted(x, s[1..]);
      InsertHead(x, s[1..]);
      var r := Insert(x, s[1..]);
      assert forall i :: 0 <= i < |r| ==> ([s[0]] + r)[i + 1] == r[i];
    }
  }

  /** `.sort((a, b) => b.createdAt.localeCompare(a.createdAt))`, as an insertion sort. */
  function SortNewestFirst(s: seq<Summary>): (r: seq<Summary>)
    ensures multiset(r) == multiset(s) && |r| == |s|
  {
    if s == [] then []
    else
      assert s == [s[0]] + s[1..];
      Insert(s[0], SortNewestFirst(s[1..]))
  }

  lemma {:induction false} SortNewestFirstSorted(s: seq<Summary>)
    ensures NewestFirst(SortNewestFirst(s))
  {
    if s != [] {
      SortNewestFirstSorted(s[1..]);
      InsertSorted(s[0], SortNewestFirst(s[1..]));
    }
  }

  /** Sorted newest first between any two positions, not only neighbours. */
  lemma {:induction false} NewestFirstAllPairs(s: seq<Summary>, i: nat, j: nat)
    requires NewestFirst(s) && i <= j < |s|
    ensures LexLe(s[j].createdAt, s[i].createdAt)
    decreases j - i
  {
    if i == j {
      LexLeReflexive(s[i].createdAt);
    } else {
      NewestFirstAllPairs(s, i + 1, j);
      LexLeTransitive(s[j].createdAt, s[i + 1].createdAt, s[i].createdAt);
    }
  }

  lemma {:induction false} LexLeReflexive(a: string)
    ensures LexLe(a, a)
    decreases |a|
  {
    if a != [] {
      LexLeReflexive(a[1..]);
    }
  }

  /** `GET /projects`: the summaries of the stored projects, newest first. */
  function ListProjects(entries: seq<(string, Project)>): seq<Summary> {
    SortNewestFirst(Summaries(entries))
  }

  /** The listing holds exactly the summaries of the `.json` entries, each as often as it
      occurs, and is sorted newest first. */
  lemma ListProjectsSpec(entries: seq<(string, Project)>)
    ensures multiset(ListProjects(entries)) == multiset(Summaries(entries))
    ensures forall i, j :: 0 <= i <= j < |ListProjects(entries)| ==>
      LexLe(ListProjects(entries)[j].createdAt, ListProjects(entries)[i].createdAt)
  {
    var r := ListProjects(entries);
    SortNewestFirstSorted(Summaries(entries));
    forall i, j | 0 <= i <= j < |r| ensures LexLe(r[j].createdAt, r[i].createdAt) {
      NewestFirstAllPairs(r, i, j);
    }
  }

  /** A project that was saved and whose file is in the directory shows up in the listing. */
  lemma {:induction false} SavedProjectListed(entries: seq<(string, Project)>, req: SaveRequest,
                                              id: string, createdAt: string)
    requires SaveProject(req, id, createdAt).Ok?
    requires (FileName(id), SaveProject(req, id, createdAt).value) in entries
    ensures Summary(id, req.name.value, OrElse(req.theme, "default"), createdAt) in ListProjects(entries)
  {
    var p := SaveProject(req, id, createdAt).value;
    assert EndsWith(FileName(id), ".json");
    SummaryOfEntry(entries, (FileName(id), p));
    assert Summarize(p) in multiset(ListProjects(entries));
  }

  /** Each `.json` entry contributes its summary. */
  lemma {:induction false} SummaryOfEntry(entries: seq<(string, Project)>, e: (string, Project))
    requires e in entries && EndsWith(e.0, ".json")
    ensures Summarize(e.1) in Summaries(entries)
  {
    if entries[0] != e {
      SummaryOfEntry(entries[1..], e);
    }
  }
}
