/**
 * The configuration records of src/config.rs and `validate_config`, the
 * custom rules a deserialised configuration must pass: required text
 * fields may not be blank, checked section by section in a fixed order,
 * reporting the first violation.
 */
module Config {
  import opened Common

  datatype Tool = Tool(name: string, bin: string, url: Option<string>)
  datatype Repository = Repository(name: string, url: string)
  datatype Chart = Chart(name: string, repo: string)
  datatype Helm = Helm(repositories: seq<Repository>, charts: seq<Chart>)
  datatype Log = Log(level: Option<string>, file: Option<string>)
  datatype Dependencies = Dependencies(tools: seq<Tool>, helm: Helm)
  datatype Application = Application(helm: Helm)
  datatype Config = Config(log: Option<Log>, dependencies: Dependencies, application: Application)

  // ---------------------------------------------------------------------
  // The messages of `validate_config`

  const ToolNameMessage: string := "The 'name' field of all defined tools cannot be empty."
  const RepoNameMessage: string := "The 'name' field of all defined repositories cannot be empty."
  const ChartNameMessage: string := "The 'name' field of all defined charts cannot be empty."

  function BinMessage(tool: string): string {
    "The 'bin' field of " + tool + " cannot be empty."
  }

  /** Unlike the others, this message has no final full stop. */
  function UrlMessage(repo: string): string {
    "The 'url' field of " + repo + " cannot be empty"
  }

  function RepoMessage(chart: string): string {
    "The 'repo' field of chart " + chart + " cannot be empty."
  }

  /** `s.trim().is_empty()`. */
  predicate IsEmptyTrimmed(s: string) {
    Trim(s) == []
  }

  // ---------------------------------------------------------------------
  // The loops of `validate_config`, in their order

  /** The loop over `dependencies.tools`: name first, then bin; `url` is never looked at. */
  function CheckTools(ts: seq<Tool>): (r: Result<(), string>)
    ensures r.Err? ==> r == Err(ToolNameMessage) || exists t | t in ts :: r == Err(BinMessage(t.name))
    decreases |ts|
  {
    if ts == [] then Ok(())
    else if IsEmptyTrimmed(ts[0].name) then Err(ToolNameMessage)
    else if IsEmptyTrimmed(ts[0].bin) then Err(BinMessage(ts[0].name))
    else CheckTools(ts[1..])
  }

  /** The inner loop over every repository of the section, run inside each outer iteration. */
  function CheckUrls(all: seq<Repository>, outerName: string): (r: Result<(), string>)
    ensures r.Err? ==> r == Err(UrlMessage(outerName))
    decreases |all|
  {
    if all == [] then Ok(())
    else if IsEmptyTrimmed(all[0].url) then Err(UrlMessage(outerName))
    else CheckUrls(all[1..], outerName)
  }

  /** The outer loop over the repositories `outer`, a suffix of the section `all`. */
  function CheckRepos(outer: seq<Repository>, all: seq<Repository>): (r: Result<(), string>)
    ensures r.Err? ==> r == Err(RepoNameMessage) || exists o | o in outer :: r == Err(UrlMessage(o.name))
    decreases |outer|
  {
    if outer == [] then Ok(())
    else if IsEmptyTrimmed(outer[0].name) then Err(RepoNameMessage)
    else if CheckUrls(all, outer[0].name).Err? then CheckUrls(all, outer[0].name)
    else CheckRepos(outer[1..], all)
  }

  function CheckCharts(cs: seq<Chart>): (r: Result<(), string>)
    ensures r.Err? ==> r == Err(ChartNameMessage) || exists c | c in cs :: r == Err(RepoMessage(c.name))
    decreases |cs|
  {
    if cs == [] then Ok(())
    else if IsEmptyTrimmed(cs[0].name) then Err(ChartNameMessage)
    else if IsEmptyTrimmed(cs[0].repo) then Err(RepoMessage(cs[0].name))
    else CheckCharts(cs[1..])
  }

  function Then(first: Result<(), string>, next: Result<(), string>): Result<(), string> {
    if first.Err? then first else next
  }

  /** `validate_config`: it returns `Ok(())` exactly for configurations with no blank required field. */
  function ValidateConfig(c: Config): (r: Result<(), string>)
    ensures r.Ok? <==> ConfigValid(c)
  {
    CheckToolsPasses(c.dependencies.tools);
    HelmCheck(c.dependencies.helm);
    HelmCheck(c.application.helm);
    var deps := c.dependencies.helm;
    var app := c.application.helm;
    Then(CheckTools(c.dependencies.tools),
      Then(CheckRepos(deps.repositories, deps.repositories),
        Then(CheckCharts(deps.charts),
          Then(CheckRepos(app.repositories, app.repositories),
            CheckCharts(app.charts)))))
  }

  // ---------------------------------------------------------------------
  // What a valid configuration is

  predicate ToolValid(t: Tool) { !Blank(t.name) && !Blank(t.bin) }
  predicate RepositoryValid(r: Repository) { !Blank(r.name) && !Blank(r.url) }
  predicate ChartValid(c: Chart) { !Blank(c.name) && !Blank(c.repo) }

  predicate HelmValid(h: Helm) {
    && (forall i | 0 <= i < |h.repositories| :: RepositoryValid(h.repositories[i]))
    && (forall i | 0 <= i < |h.charts| :: ChartValid(h.charts[i]))
  }

  /** Every required field of every item holds something other than whitespace. */
  predicate ConfigValid(c: Config) {
    && (forall i | 0 <= i < |c.dependencies.tools| :: ToolValid(c.dependencies.tools[i]))
    && HelmValid(c.dependencies.helm)
    && HelmValid(c.application.helm)
  }

  /** The error the tools loop reports for its first offending tool. */
  function ToolViolation(t: Tool): string {
    if Blank(t.name) then ToolNameMessage else BinMessage(t.name)
  }

  function ChartViolation(c: Chart): string {
    if Blank(c.name) then ChartNameMessage else RepoMessage(c.name)
  }

  /** The tools loop passes exactly when every tool has a non-blank name and bin. */
  lemma {:induction false} CheckToolsPasses(ts: seq<Tool>)
    ensures CheckTools(ts).Ok? <==> forall i | 0 <= i < |ts| :: ToolValid(ts[i])
    decreases |ts|
  {
    if ts != [] {
      TrimEmptyIffBlank(ts[0].name);
      TrimEmptyIffBlank(ts[0].bin);
      var tail := ts[1..];
      assert forall j | 0 <= j < |tail| :: tail[j] == ts[j + 1];
      CheckToolsPasses(tail);
    }
  }

  /** Otherwise it reports the first offending tool. */
  lemma {:induction false} CheckToolsReportsFirst(ts: seq<Tool>, i: nat)
    requires i < |ts| && !ToolValid(ts[i])
    requires forall j | 0 <= j < i :: ToolValid(ts[j])
    ensures CheckTools(ts) == Err(ToolViolation(ts[i]))
    decreases i
  {
    TrimEmptyIffBlank(ts[0].name);
    TrimEmptyIffBlank(ts[0].bin);
    if i > 0 {
      var tail := ts[1..];
      assert forall j | 0 <= j < i - 1 :: tail[j] == ts[j + 1];
      CheckToolsReportsFirst(tail, i - 1);
    }
  }

  /** The charts loop passes exactly when every chart has a non-blank name and repo. */
  lemma {:induction false} CheckChartsPasses(cs: seq<Chart>)
    ensures CheckCharts(cs).Ok? <==> forall i | 0 <= i < |cs| :: ChartValid(cs[i])
    decreases |cs|
  {
    if cs != [] {
      TrimEmptyIffBlank(cs[0].name);
      TrimEmptyIffBlank(cs[0].repo);
      var tail := cs[1..];
      assert forall j | 0 <= j < |tail| :: tail[j] == cs[j + 1];
      CheckChartsPasses(tail);
    }
  }

  /** Otherwise it reports the first offending chart. */
  lemma {:induction false} CheckChartsReportsFirst(cs: seq<Chart>, i: nat)
    requires i < |cs| && !ChartValid(cs[i])
    requires forall j | 0 <= j < i :: ChartValid(cs[j])
    ensures CheckCharts(cs) == Err(ChartViolation(cs[i]))
    decreases i
  {
    TrimEmptyIffBlank(cs[0].name);
    TrimEmptyIffBlank(cs[0].repo);
    if i > 0 {
      var tail := cs[1..];
      assert forall j | 0 <= j < i - 1 :: tail[j] == cs[j + 1];
      CheckChartsReportsFirst(tail, i - 1);
    }
  }

  lemma {:induction false} CheckUrlsAll(all: seq<Repository>, outerName: string)
    ensures CheckUrls(all, outerName).Ok? <==> forall i | 0 <= i < |all| :: !Blank(all[i].url)
    ensures CheckUrls(all, outerName).Err? ==> CheckUrls(all, outerName) == Err(UrlMessage(outerName))
    decreases |all|
  {
    if all != [] {
      TrimEmptyIffBlank(all[0].url);
      CheckUrlsAll(all[1..], outerName);
      if forall i | 1 <= i < |all| :: !Blank(all[i].url) {
        assert forall i | 0 <= i < |all[1..]| :: all[1..][i] == all[i + 1];
      } else {
        var i :| 1 <= i < |all| && Blank(all[i].url);
        assert all[1..][i - 1] == all[i];
      }
    }
  }

  /** With every url filled in, the outer loop only checks names: the first blank one fails. */
  lemma {:induction false} CheckReposNames(outer: seq<Repository>, all: seq<Repository>)
    requires forall i | 0 <= i < |all| :: !Blank(all[i].url)
    ensures CheckRepos(outer, all).Ok? <==> forall i | 0 <= i < |outer| :: !Blank(outer[i].name)
    ensures CheckRepos(outer, all).Err? ==> CheckRepos(outer, all) == Err(RepoNameMessage)
    decreases |outer|
  {
    if outer != [] {
      TrimEmptyIffBlank(outer[0].name);
      CheckUrlsAll(all, outer[0].name);
      CheckReposNames(outer[1..], all);
      if forall i | 1 <= i < |outer| :: !Blank(outer[i].name) {
        assert forall i | 0 <= i < |outer[1..]| :: outer[1..][i] == outer[i + 1];
      } else {
        var i :| 1 <= i < |outer| && Blank(outer[i].name);
        assert outer[1..][i - 1] == outer[i];
      }
    }
  }

  /**
   * The repositories loop of a section. Because the url check runs over the
   * whole section inside the first outer iteration, a blank url anywhere is
   * reported under the FIRST repository's name, unless that name is blank.
   */
  lemma RepositoriesCheck(rs: seq<Repository>)
    ensures CheckRepos(rs, rs).Ok? <==> forall i | 0 <= i < |rs| :: RepositoryValid(rs[i])
    ensures rs != [] && Blank(rs[0].name) ==> CheckRepos(rs, rs) == Err(RepoNameMessage)
    ensures rs != [] && !Blank(rs[0].name) && (exists j | 0 <= j < |rs| :: Blank(rs[j].url)) ==>
      CheckRepos(rs, rs) == Err(UrlMessage(rs[0].name))
    ensures (forall j | 0 <= j < |rs| :: !Blank(rs[j].url)) && CheckRepos(rs, rs).Err? ==>
      CheckRepos(rs, rs) == Err(RepoNameMessage)
  {
    if rs != [] {
      TrimEmptyIffBlank(rs[0].name);
      CheckUrlsAll(rs, rs[0].name);
    }
    if forall j | 0 <= j < |rs| :: !Blank(rs[j].url) {
      CheckReposNames(rs, rs);
    }
  }

  lemma HelmCheck(h: Helm)
    ensures Then(CheckRepos(h.repositories, h.repositories), CheckCharts(h.charts)).Ok? <==> HelmValid(h)
  {
    RepositoriesCheck(h.repositories);
    CheckChartsPasses(h.charts);
  }

  /** The tools come first: the first offending tool is reported whatever the other sections hold. */
  lemma ToolsCheckedFirst(c: Config, i: nat)
    requires i < |c.dependencies.tools| && !ToolValid(c.dependencies.tools[i])
    requires forall j | 0 <= j < i :: ToolValid(c.dependencies.tools[j])
    ensures ValidateConfig(c) == Err(ToolViolation(c.dependencies.tools[i]))
  {
    CheckToolsReportsFirst(c.dependencies.tools, i);
  }

  /** With valid tools and dependency repositories, the first offending dependency chart is reported. */
  lemma DependencyChartsCheckedThird(c: Config, i: nat)
    requires forall j | 0 <= j < |c.dependencies.tools| :: ToolValid(c.dependencies.tools[j])
    requires forall j | 0 <= j < |c.dependencies.helm.repositories| :: RepositoryValid(c.dependencies.helm.repositories[j])
    requires i < |c.dependencies.helm.charts| && !ChartValid(c.dependencies.helm.charts[i])
    requires forall j | 0 <= j < i :: ChartValid(c.dependencies.helm.charts[j])
    ensures ValidateConfig(c) == Err(ChartViolation(c.dependencies.helm.charts[i]))
  {
    CheckToolsPasses(c.dependencies.tools);
    RepositoriesCheck(c.dependencies.helm.repositories);
    CheckChartsReportsFirst(c.dependencies.helm.charts, i);
  }

  /** Application sections are looked at only once every dependency section is valid. */
  lemma ApplicationCheckedLast(c: Config)
    requires !HelmValid(c.application.helm)
    requires forall j | 0 <= j < |c.dependencies.tools| :: ToolValid(c.dependencies.tools[j])
    requires HelmValid(c.dependencies.helm)
    ensures ValidateConfig(c) == Then(CheckRepos(c.application.helm.repositories, c.application.helm.repositories),
                                      CheckCharts(c.application.helm.charts))
    ensures ValidateConfig(c).Err?
  {
    CheckToolsPasses(c.dependencies.tools);
    HelmCheck(c.dependencies.helm);
    HelmCheck(c.application.helm);
  }

  /** A tool's `url` is optional and never validated. */
  lemma ToolUrlIgnored(c: Config, urls: seq<Option<string>>)
    requires |urls| == |c.dependencies.tools|
    ensures var ts := c.dependencies.tools;
      var ts' := seq(|ts|, i requires 0 <= i < |ts| => Tool(ts[i].name, ts[i].bin, urls[i]));
      ValidateConfig(c.(dependencies := c.dependencies.(tools := ts'))) == ValidateConfig(c)
  {
    var ts := c.dependencies.tools;
    var ts' := seq(|ts|, i requires 0 <= i < |ts| => Tool(ts[i].name, ts[i].bin, urls[i]));
    SameNamesSameCheck(ts, ts');
  }

  lemma {:induction false} SameNamesSameCheck(ts: seq<Tool>, ts': seq<Tool>)
    requires |ts| == |ts'|
    requires forall i | 0 <= i < |ts| :: ts[i].name == ts'[i].name && ts[i].bin == ts'[i].bin
    ensures CheckTools(ts) == CheckTools(ts')
    decreases |ts|
  {
    if ts != [] {
      SameNamesSameCheck(ts[1..], ts'[1..]);
    }
  }

  // ---------------------------------------------------------------------
  // `load_config`

  datatype LoadError =
    | NotFound(file: string)   // "The loopy configuration file .. was not found"
    | ReadFailed(file: string) // "Failed to read .."
    | ParseFailed(file: string) // "Failed to parse YAML configuration file .."
    | Invalid(message: string)  // the message of `validate_config`

  /**
   * `load_config(file)`: `present` is `Path::exists`, `contents` what
   * `read_to_string` returns, `parse` stands for `serde_yaml::from_str`.
   * A missing file fails before it is read; a configuration is returned
   * exactly when it was read, parsed and is valid.
   */
  function LoadConfig(file: string, present: bool, contents: Option<string>, parse: string -> Option<Config>)
    : (r: Result<Config, LoadError>)
    ensures !present ==> r == Err(NotFound(file))
    ensures present && contents.None? ==> r == Err(ReadFailed(file))
    ensures present && contents.Some? && parse(contents.value).None? ==> r == Err(ParseFailed(file))
    ensures r.Ok? <==> present && contents.Some? && parse(contents.value).Some? && ConfigValid(parse(contents.value).value)
    ensures r.Ok? ==> r.value == parse(contents.value).value
    ensures r.Err? && r.error.Invalid? ==> r.error.message == ValidateConfig(parse(contents.value).value).error
  {
    if !present then Err(NotFound(file))
    else if contents.None? then Err(ReadFailed(file))
    else match parse(contents.value)
      case None => Err(ParseFailed(file))
      case Some(c) =>
        match ValidateConfig(c)
        case Err(m) => Err(Invalid(m))
        case Ok(_) => Ok(c)
  }
}
