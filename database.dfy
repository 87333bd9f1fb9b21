/**
 * The project directory and the connection caches of wikimetrics: the map
 * from every MediaWiki project to the database host that serves it, and the
 * `Database` object that creates engines and session makers lazily and keeps
 * them. Engines and session makers are tokens naming what they connect to.
 */
module Database {
  import opened Wrappers
  import opened Builtins

  /** The number of database hosts (`s1` ... `s7`) whose project lists are read. */
  const NumHosts: nat := 7

  /** `'s{0}'.format(host_id)`. */
  function HostName(hostId: nat): (r: string)
    ensures |r| >= 2 && r[0] == 's'
  {
    "s" + NatToString(hostId)
  }

  /** Different hosts get different names. */
  lemma HostNamesDistinct(h1: nat, h2: nat)
    requires h1 != h2
    ensures HostName(h1) != HostName(h2)
  {
    assert HostName(h1)[1..] == NatToString(h1);
    assert HostName(h2)[1..] == NatToString(h2);
  }

  /**
   * The last host among `1..n` whose project list names `project`; the lists
   * are what `get_host_projects` fetches for each host.
   */
  function LastListingHost(hostProjects: nat -> seq<string>, project: string, n: nat): (r: Option<nat>)
    ensures r.Some? ==> 1 <= r.value <= n && project in hostProjects(r.value)
    ensures r.Some? ==> forall h :: r.value < h <= n ==> project !in hostProjects(h)
    ensures r.None? <==> forall h :: 1 <= h <= n ==> project !in hostProjects(h)
  {
    if n == 0 then None
    else if project in hostProjects(n) then Some(n)
    else LastListingHost(hostProjects, project, n - 1)
  }

  /** `m` maps exactly the projects listed by hosts `1..n`, each to the last host listing it. */
  ghost predicate MapsToLastHost(m: map<string, string>, hostProjects: nat -> seq<string>, n: nat) {
    && (forall p :: p in m <==> LastListingHost(hostProjects, p, n).Some?)
    && (forall p :: p in m ==> m[p] == HostName(LastListingHost(hostProjects, p, n).value))
  }

  /** The directory is determined by the host lists: two maps that both fit them are equal. */
  lemma MapsToLastHostUnique(m1: map<string, string>, m2: map<string, string>, hostProjects: nat -> seq<string>, n: nat)
    requires MapsToLastHost(m1, hostProjects, n) && MapsToLastHost(m2, hostProjects, n)
    ensures m1 == m2
  {
    assert m1.Keys == m2.Keys;
  }

  /**
   * `get_host_projects_map` (wikimetrics/database.py:47-57): every project
   * listed by hosts 1 to 7 is mapped to its host, a later host overwriting an
   * earlier one. `hostProjects(h)` stands for the fetched list of host `h`.
   */
  method GetHostProjectsMap(hostProjects: nat -> seq<string>) returns (projectHostMap: map<string, string>)
    ensures MapsToLastHost(projectHostMap, hostProjects, NumHosts)
  {
    projectHostMap := map[];
    for hostId := 1 to NumHosts + 1
      invariant MapsToLastHost(projectHostMap, hostProjects, hostId - 1)
    {
      projectHostMap := AddHostProjects(projectHostMap, hostProjects, hostId);
    }
  }

  /** The inner loop of `get_host_projects_map`: map each project of host `hostId` to it. */
  method AddHostProjects(m: map<string, string>, hostProjects: nat -> seq<string>, hostId: nat) returns (m': map<string, string>)
    requires hostId >= 1 && MapsToLastHost(m, hostProjects, hostId - 1)
    ensures MapsToLastHost(m', hostProjects, hostId)
  {
    var projects := hostProjects(hostId);
    var host := HostName(hostId);
    m' := m;
    for j := 0 to |projects|
      invariant forall p :: p in m' <==> p in m || p in projects[..j]
      invariant forall p :: p in m' ==> m'[p] == if p in projects[..j] then host else m[p]
    {
      assert projects[..j + 1] == projects[..j] + [projects[j]];
      m' := m'[projects[j] := host];
    }
    assert projects[..|projects|] == projects;
  }

  /** The development directory (lines 194-197): every configured project name, served by `localhost`. */
  method DebugProjectHostMap(projectHostNames: seq<string>) returns (projectHostMap: map<string, string>)
    ensures forall p :: p in projectHostMap <==> p in projectHostNames
    ensures forall p :: p in projectHostMap ==> projectHostMap[p] == "localhost"
  {
    projectHostMap := map[];
    for i := 0 to |projectHostNames|
      invariant forall p :: p in projectHostMap <==> p in projectHostNames[..i]
      invariant forall p :: p in projectHostMap ==> projectHostMap[p] == "localhost"
    {
      assert projectHostNames[..i + 1] == projectHostNames[..i] + [projectHostNames[i]];
      projectHostMap := projectHostMap[projectHostNames[i] := "localhost"];
    }
    assert projectHostNames[..|projectHostNames|] == projectHostNames;
  }

  /** `MEDIAWIKI_ENGINE_URL_TEMPLATE`: a URL with one `{0}` slot for the project's database name. */
  datatype UrlTemplate = UrlTemplate(beforeSlot: string, afterSlot: string)

  /** `engine_template.format(project)`. */
  function Format(template: UrlTemplate, project: string): string {
    template.beforeSlot + project + template.afterSlot
  }

  /** The configuration keys the `Database` object reads. */
  datatype Config = Config(
    wikimetricsEngineUrl: string,
    mediawikiEngineUrlTemplate: UrlTemplate,
    debug: bool,
    projectHostNames: seq<string>)

  /** A `create_engine` result, known by the URL it connects to. */
  datatype Engine = Engine(url: string)

  /** A `sessionmaker` bound to an engine. */
  datatype Sessionmaker = Sessionmaker(engine: Engine)

  /** A session, known by the session maker that made it. */
  datatype MwSession = MwSession(maker: Sessionmaker)

  /**
   * The database singleton: a cached wikimetrics engine, per-project caches of
   * MediaWiki engines and session makers, and the lazily built project
   * directory. `engineCreations` counts the `create_engine` calls made so far.
   */
  class Database {
    const config: Config
    var wikimetricsEngine: Option<Engine>
    var mediawikiEngines: map<string, Engine>
    var mediawikiSessionmakers: map<string, Sessionmaker>
    var projectHostMap: Option<map<string, string>>
    ghost var engineCreations: nat

    /**
     * Every cached engine connects where the configuration says, and every
     * cached session maker is bound to its project's cached engine.
     */
    ghost predicate Valid()
      reads this
    {
      && (wikimetricsEngine.Some? ==> wikimetricsEngine.value.url == config.wikimetricsEngineUrl)
      && (forall p :: p in mediawikiEngines ==> mediawikiEngines[p].url == Format(config.mediawikiEngineUrlTemplate, p))
      && (forall p :: p in mediawikiSessionmakers ==> p in mediawikiEngines && mediawikiSessionmakers[p].engine == mediawikiEngines[p])
    }

    /** `Database.__init__` (lines 67-86): nothing is created yet. */
    constructor (config: Config)
      ensures this.config == config
      ensures wikimetricsEngine == None && mediawikiEngines == map[] && mediawikiSessionmakers == map[] && projectHostMap == None
      ensures engineCreations == 0
      ensures Valid()
    {
      this.config := config;
      wikimetricsEngine := None;
      mediawikiEngines := map[];
      mediawikiSessionmakers := map[];
      projectHostMap := None;
      engineCreations := 0;
    }

    /** `get_engine` (lines 88-101): the wikimetrics engine is created on the first call and returned from then on. */
    method GetEngine() returns (engine: Engine)
      requires Valid()
      modifies this
      ensures Valid()
      ensures wikimetricsEngine == Some(engine) && engine.url == config.wikimetricsEngineUrl
      ensures old(wikimetricsEngine).Some? ==> engine == old(wikimetricsEngine).value && engineCreations == old(engineCreations)
      ensures old(wikimetricsEngine).None? ==> engineCreations == old(engineCreations) + 1
      ensures mediawikiEngines == old(mediawikiEngines) && mediawikiSessionmakers == old(mediawikiSessionmakers)
      ensures projectHostMap == old(projectHostMap)
    {
      if wikimetricsEngine.None? {
        wikimetricsEngine := Some(Engine(config.wikimetricsEngineUrl));
        engineCreations := engineCreations + 1;
      }
      engine := wikimetricsEngine.value;
    }

    /** `get_mw_engine` (lines 152-173): a project's engine is created on its first request and returned from the cache afterwards. */
    method GetMwEngine(project: string) returns (engine: Engine)
      requires Valid()
      modifies this
      ensures Valid()
      ensures engine.url == Format(config.mediawikiEngineUrlTemplate, project)
      ensures project in old(mediawikiEngines) ==>
                engine == old(mediawikiEngines)[project] && mediawikiEngines == old(mediawikiEngines)
                && engineCreations == old(engineCreations)
      ensures project !in old(mediawikiEngines) ==>
                mediawikiEngines == old(mediawikiEngines)[project := engine] && engineCreations == old(engineCreations) + 1
      ensures wikimetricsEngine == old(wikimetricsEngine) && mediawikiSessionmakers == old(mediawikiSessionmakers)
      ensures projectHostMap == old(projectHostMap)
    {
      if project in mediawikiEngines {
        return mediawikiEngines[project];
      }
      engine := Engine(Format(config.mediawikiEngineUrlTemplate, project));
      engineCreations := engineCreations + 1;
      mediawikiEngines := mediawikiEngines[project := engine];
    }

    /**
     * `get_mw_session` (lines 121-150): a session from the project's cached
     * session maker, or from a new one bound to the project's engine (cached
     * or created), which is then cached.
     */
    method GetMwSession(project: string) returns (session: MwSession)
      requires Valid()
      modifies this
      ensures Valid()
      ensures project in mediawikiSessionmakers && session.maker == mediawikiSessionmakers[project]
      ensures session.maker.engine.url == Format(config.mediawikiEngineUrlTemplate, project)
      ensures project in old(mediawikiSessionmakers) ==>
                session.maker == old(mediawikiSessionmakers)[project]
                && mediawikiSessionmakers == old(mediawikiSessionmakers) && mediawikiEngines == old(mediawikiEngines)
                && engineCreations == old(engineCreations)
      ensures project !in old(mediawikiSessionmakers) ==>
                mediawikiSessionmakers == old(mediawikiSessionmakers)[project := session.maker]
                && project in mediawikiEngines && session.maker.engine == mediawikiEngines[project]
                && (project in old(mediawikiEngines) ==> mediawikiEngines == old(mediawikiEngines) && engineCreations == old(engineCreations))
                && (project !in old(mediawikiEngines) ==>
                      mediawikiEngines == old(mediawikiEngines)[project := session.maker.engine]
                      && engineCreations == old(engineCreations) + 1)
      ensures wikimetricsEngine == old(wikimetricsEngine) && projectHostMap == old(projectHostMap)
    {
      if project in mediawikiSessionmakers {
        return MwSession(mediawikiSessionmakers[project]);
      }
      var engine := GetMwEngine(project);
      var projectSessionmaker := Sessionmaker(engine);
      mediawikiSessionmakers := mediawikiSessionmakers[project := projectSessionmaker];
      session := MwSession(projectSessionmaker);
    }

    /**
     * `get_project_host_map` (lines 175-215) without the on-disk cache: the
     * stored directory when there is one and `usecache` holds; otherwise a
     * fresh one, the configured names in development and the hosts' lists
     * `hostProjects` in production, which replaces the stored one.
     */
    method GetProjectHostMap(usecache: bool, hostProjects: nat -> seq<string>) returns (directory: map<string, string>)
      requires Valid()
      modifies this
      ensures Valid()
      ensures projectHostMap == Some(directory)
      ensures old(projectHostMap).Some? && usecache ==> directory == old(projectHostMap).value
      ensures (old(projectHostMap).None? || !usecache) && config.debug ==>
                (forall p :: p in directory <==> p in config.projectHostNames)
                && (forall p :: p in directory ==> directory[p] == "localhost")
      ensures (old(projectHostMap).None? || !usecache) && !config.debug ==> MapsToLastHost(directory, hostProjects, NumHosts)
      ensures wikimetricsEngine == old(wikimetricsEngine) && mediawikiEngines == old(mediawikiEngines)
      ensures mediawikiSessionmakers == old(mediawikiSessionmakers) && engineCreations == old(engineCreations)
    {
      if projectHostMap.None? || !usecache {
        var computed;
        if config.debug {
          computed := DebugProjectHostMap(config.projectHostNames);
        } else {
          computed := GetHostProjectsMap(hostProjects);
        }
        projectHostMap := Some(computed);
      }
      directory := projectHostMap.value;
    }
  }
}
