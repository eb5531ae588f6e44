/**
 * The relational state store: projects, deployments and pods as tables with the schema's keys,
 * foreign keys and cascades.
 */
module StateTables {
  import opened Wrappers

  type Id = nat

  datatype Project = Project(name: string, status: string, createdAt: int)
  datatype Spec = Spec(project: string, name: string, replicas: nat, image: string)
  datatype Deployment = Deployment(id: Id, spec: Spec, status: string, createdAt: int, updatedAt: int)
  datatype PodState = PodState(
    nodeId: Option<Id>, containerId: Option<string>, containerIp: Option<string>, status: string,
    restartCount: nat)
  datatype Pod = Pod(
    id: Id, deploymentId: Id, project: string, deploymentName: string, replicaIndex: nat, image: string,
    createdAt: int, state: PodState)

  /** A row of the deployments table: the key columns are copied from the spec when inserted. */
  datatype Row = Row(project: string, name: string, spec: Spec, status: string, createdAt: int, updatedAt: int)

  datatype Db = Db(projects: map<string, Project>, deployments: map<Id, Row>, pods: map<Id, Pod>)

  const EMPTY: Db := Db(map[], map[], map[])

  // ---- The calls ----

  datatype Call =
    | InsertProject(p: Project)
    | UpdateProjectStatus(name: string, status: string)
    | DeleteProject(name: string)
    | InsertDeployment(d: Deployment)
    | UpdateDeployment(d: Deployment)
    | DeleteDeployment(id: Id)
    | InsertPod(pod: Pod)
    | UpdatePod(pod: Pod)
    | DeletePod(id: Id)

  function RowOf(d: Deployment): Row {
    Row(d.spec.project, d.spec.name, d.spec, d.status, d.createdAt, d.updatedAt)
  }

  predicate KeyTaken(db: Db, project: string, name: string) {
    exists id <- db.deployments :: db.deployments[id].project == project && db.deployments[id].name == name
  }

  /** The calls that the store refuses, leaving the tables as they are. */
  predicate Refused(db: Db, c: Call) {
    match c
    case InsertProject(p) => p.name in db.projects
    case UpdateProjectStatus(name, _) => name !in db.projects
    case DeleteProject(_) => false
    case InsertDeployment(d) =>
      d.id in db.deployments || d.spec.project !in db.projects || KeyTaken(db, d.spec.project, d.spec.name)
    case UpdateDeployment(d) => d.id !in db.deployments
    case DeleteDeployment(_) => false
    case InsertPod(pod) => pod.id in db.pods || pod.deploymentId !in db.deployments
    case UpdatePod(pod) => pod.id !in db.pods
    case DeletePod(_) => false
  }

  /** `ON DELETE CASCADE` of the pods: a deployment's pods go with it. */
  function WithoutDeployments(db: Db, gone: set<Id>): Db {
    db.(deployments := db.deployments - gone,
        pods := map id <- db.pods | db.pods[id].deploymentId !in gone :: db.pods[id])
  }

  function DeploymentsOf(db: Db, project: string): set<Id> {
    set id <- db.deployments | db.deployments[id].project == project
  }

  function Done(db: Db, c: Call): Db {
    if Refused(db, c) then db
    else
      match c
      case InsertProject(p) => db.(projects := db.projects[p.name := p])
      case UpdateProjectStatus(name, status) =>
        db.(projects := db.projects[name := db.projects[name].(status := status)])
      case DeleteProject(name) =>
        WithoutDeployments(db, DeploymentsOf(db, name)).(projects := db.projects - {name})
      case InsertDeployment(d) => db.(deployments := db.deployments[d.id := RowOf(d)])
      case UpdateDeployment(d) =>
        db.(deployments := db.deployments[d.id :=
              db.deployments[d.id].(spec := d.spec, status := d.status, updatedAt := d.updatedAt)])
      case DeleteDeployment(id) => WithoutDeployments(db, {id})
      case InsertPod(pod) => db.(pods := db.pods[pod.id := pod])
      case UpdatePod(pod) => db.(pods := db.pods[pod.id := db.pods[pod.id].(state := pod.state)])
      case DeletePod(id) => db.(pods := db.pods - {id})
  }

  /** The store: each method is one SQL statement, with the constraints SQLite enforces for it. */
  class SqliteStore {
    var projects: map<string, Project>
    var deployments: map<Id, Row>
    var pods: map<Id, Pod>

    ghost function Tables(): Db
      reads this
    {
      Db(projects, deployments, pods)
    }

    constructor ()
      ensures Tables() == EMPTY
    {
      projects, deployments, pods := map[], map[], map[];
    }

    method InsertProject(project: Project) returns (ok: bool)
      modifies this
      ensures Tables() == Done(old(Tables()), Call.InsertProject(project))
      ensures ok == !Refused(old(Tables()), Call.InsertProject(project))
    {
      if project.name in projects {
        return false;
      }
      projects := projects[project.name := project];
      return true;
    }

    method UpdateProjectStatus(name: string, status: string) returns (ok: bool)
      modifies this
      ensures Tables() == Done(old(Tables()), Call.UpdateProjectStatus(name, status))
      ensures ok == !Refused(old(Tables()), Call.UpdateProjectStatus(name, status))
    {
      if name !in projects {
        return false;
      }
      projects := projects[name := projects[name].(status := status)];
      return true;
    }

    method DeleteProject(name: string)
      modifies this
      ensures Tables() == Done(old(Tables()), Call.DeleteProject(name))
    {
      var gone := set id <- deployments | deployments[id].project == name;
      projects := projects - {name};
      deployments := deployments - gone;
      pods := map id <- pods | pods[id].deploymentId !in gone :: pods[id];
    }

    method InsertDeployment(deployment: Deployment) returns (ok: bool)
      modifies this
      ensures Tables() == Done(old(Tables()), Call.InsertDeployment(deployment))
      ensures ok == !Refused(old(Tables()), Call.InsertDeployment(deployment))
    {
      var project, name := deployment.spec.project, deployment.spec.name;
      var primary := deployment.id !in deployments;
      var foreign := project in projects;
      var unique := forall id <- deployments :: deployments[id].project != project || deployments[id].name != name;
      if !(primary && foreign && unique) {
        return false;
      }
      var row := Row(project, name, deployment.spec, deployment.status, deployment.createdAt, deployment.updatedAt);
      deployments := deployments[deployment.id := row];
      return true;
    }

    method UpdateDeployment(deployment: Deployment) returns (ok: bool)
      modifies this
      ensures Tables() == Done(old(Tables()), Call.UpdateDeployment(deployment))
      ensures ok == !Refused(old(Tables()), Call.UpdateDeployment(deployment))
    {
      if deployment.id !in deployments {
        return false;
      }
      var row := deployments[deployment.id];
      row := row.(spec := deployment.spec, status := deployment.status, updatedAt := deployment.updatedAt);
      deployments := deployments[deployment.id := row];
      return true;
    }

    method DeleteDeployment(id: Id)
      modifies this
      ensures Tables() == Done(old(Tables()), Call.DeleteDeployment(id))
    {
      deployments := deployments - {id};
      pods := map pod <- pods | pods[pod].deploymentId != id :: pods[pod];
    }

    method InsertPod(pod: Pod) returns (ok: bool)
      modifies this
      ensures Tables() == Done(old(Tables()), Call.InsertPod(pod))
      ensures ok == !Refused(old(Tables()), Call.InsertPod(pod))
    {
      if pod.id in pods || pod.deploymentId !in deployments {
        return false;
      }
      pods := pods[pod.id := pod];
      return true;
    }

    method UpdatePod(pod: Pod) returns (ok: bool)
      modifies this
      ensures Tables() == Done(old(Tables()), Call.UpdatePod(pod))
      ensures ok == !Refused(old(Tables()), Call.UpdatePod(pod))
    {
      if pod.id !in pods {
        return false;
      }
      pods := pods[pod.id := pods[pod.id].(state := pod.state)];
      return true;
    }

    method DeletePod(id: Id)
      modifies this
      ensures Tables() == Done(old(Tables()), Call.DeletePod(id))
    {
      pods := pods - {id};
    }
  }

  function Run(calls: seq<Call>): Db {
    if calls == [] then EMPTY else Done(Run(calls[..|calls| - 1]), calls[|calls| - 1])
  }

  // ---- Referential integrity ----

  predicate SameKey(a: Row, b: Row) {
    a.project == b.project && a.name == b.name
  }

  predicate Integrity(db: Db) {
    && (forall id <- db.pods :: db.pods[id].id == id && db.pods[id].deploymentId in db.deployments)
    && (forall id <- db.deployments :: db.deployments[id].project in db.projects)
    && (forall a <- db.deployments, b <- db.deployments ::
          SameKey(db.deployments[a], db.deployments[b]) ==> a == b)
  }

  lemma DoneIntegrity(db: Db, c: Call)
    requires Integrity(db)
    ensures Integrity(Done(db, c))
  {
  }

  /** After every sequence of calls no reference dangles and (project, name) is unique. */
  lemma {:induction false} RunIntegrity(calls: seq<Call>)
    ensures Integrity(Run(calls))
  {
    hide Integrity, Done;
    if calls != [] {
      RunIntegrity(calls[..|calls| - 1]);
      DoneIntegrity(Run(calls[..|calls| - 1]), calls[|calls| - 1]);
    } else {
      EmptyIntegrity();
    }
  }

  lemma EmptyIntegrity()
    ensures Integrity(EMPTY)
  {
  }

  /**
   * Deleting a project removes exactly its deployments and exactly the pods of those deployments,
   * and nothing of any other project.
   */
  lemma DeleteProjectExact(db: Db, name: string, id: Id)
    requires Integrity(db)
    ensures var db' := Done(db, DeleteProject(name));
            && name !in db'.projects
            && (forall p :: p != name ==> (p in db'.projects <==> p in db.projects))
            && (id in db'.deployments <==> id in db.deployments && db.deployments[id].project != name)
            && (id in db'.deployments ==> db'.deployments[id] == db.deployments[id])
            && (id in db'.pods <==> id in db.pods && db.deployments[db.pods[id].deploymentId].project != name)
            && (id in db'.pods ==> db'.pods[id] == db.pods[id])
  {
  }

  /**
   * An insert is refused exactly when its key is taken or its row would break the integrity of the
   * tables, and an update exactly when there is no such row; deletions are never refused.
   */
  lemma RefusedExactly(db: Db, c: Call)
    requires Integrity(db)
    ensures match c
            case InsertProject(p) => Refused(db, c) <==> p.name in db.projects
            case UpdateProjectStatus(name, _) => Refused(db, c) <==> name !in db.projects
            case InsertDeployment(d) =>
              Refused(db, c) <==>
                d.id in db.deployments ||
                !Integrity(db.(deployments := db.deployments[d.id :=
                             Row(d.spec.project, d.spec.name, d.spec, d.status, d.createdAt, d.updatedAt)]))
            case UpdateDeployment(d) => Refused(db, c) <==> d.id !in db.deployments
            case InsertPod(pod) =>
              Refused(db, c) <==> pod.id in db.pods || !Integrity(db.(pods := db.pods[pod.id := pod]))
            case UpdatePod(pod) => Refused(db, c) <==> pod.id !in db.pods
            case _ => !Refused(db, c)
  {
    match c
    case InsertDeployment(d) =>
      if d.id !in db.deployments {
        InsertedIntegrity(db, d);
      }
    case InsertPod(pod) =>
      if pod.id !in db.pods {
        assert pod.id in db.pods[pod.id := pod];
      }
    case _ =>
  }

  lemma InsertedIntegrity(db: Db, d: Deployment)
    requires Integrity(db) && d.id !in db.deployments
    ensures Integrity(db.(deployments := db.deployments[d.id := RowOf(d)])) <==>
              d.spec.project in db.projects && !KeyTaken(db, d.spec.project, d.spec.name)
  {
    var rows := db.deployments[d.id := RowOf(d)];
    assert d.id in rows;
    if id :| id in db.deployments && db.deployments[id].project == d.spec.project && db.deployments[id].name == d.spec.name {
      assert id in rows && SameKey(rows[id], rows[d.id]) && id != d.id;
    }
  }

  // ---- Every row is its own history ----

  /** What a call makes of the row of one project. */
  function ProjectAfter(row: Option<Project>, c: Call, name: string): Option<Project> {
    match c
    case InsertProject(p) => if p.name == name && row.None? then Some(p) else row
    case UpdateProjectStatus(n, status) =>
      if n == name && row.Some? then Some(Project(row.value.name, status, row.value.createdAt)) else row
    case DeleteProject(n) => if n == name then None else row
    case _ => row
  }

  /** What a call makes of the row of one deployment. */
  function DeploymentAfter(db: Db, row: Option<Row>, c: Call, id: Id): Option<Row> {
    match c
    case InsertDeployment(d) =>
      if d.id == id && row.None? && d.spec.project in db.projects &&
         forall other <- db.deployments ::
           db.deployments[other].project != d.spec.project || db.deployments[other].name != d.spec.name
      then Some(Row(d.spec.project, d.spec.name, d.spec, d.status, d.createdAt, d.updatedAt))
      else row
    case UpdateDeployment(d) =>
      if d.id == id && row.Some?
      then Some(Row(row.value.project, row.value.name, d.spec, d.status, row.value.createdAt, d.updatedAt))
      else row
    case DeleteDeployment(gone) => if gone == id then None else row
    case DeleteProject(project) => if row.Some? && row.value.project == project then None else row
    case _ => row
  }

  /** What a call makes of the row of one pod. */
  function PodAfter(db: Db, row: Option<Pod>, c: Call, id: Id): Option<Pod> {
    match c
    case InsertPod(pod) => if pod.id == id && row.None? && pod.deploymentId in db.deployments then Some(pod) else row
    case UpdatePod(pod) => if pod.id == id && row.Some? then Some(row.value.(state := pod.state)) else row
    case DeletePod(gone) => if gone == id then None else row
    case DeleteDeployment(gone) => if row.Some? && row.value.deploymentId == gone then None else row
    case DeleteProject(project) =>
      if row.Some? && row.value.deploymentId in db.deployments &&
         db.deployments[row.value.deploymentId].project == project
      then None else row
    case _ => row
  }

  function Read<K, V>(table: map<K, V>, key: K): Option<V> {
    if key in table then Some(table[key]) else None
  }

  function ProjectHistory(calls: seq<Call>, name: string): Option<Project> {
    if calls == [] then None
    else ProjectAfter(ProjectHistory(calls[..|calls| - 1], name), calls[|calls| - 1], name)
  }

  function DeploymentHistory(calls: seq<Call>, id: Id): Option<Row> {
    if calls == [] then None
    else
      var before := calls[..|calls| - 1];
      DeploymentAfter(Run(before), DeploymentHistory(before, id), calls[|calls| - 1], id)
  }

  function PodHistory(calls: seq<Call>, id: Id): Option<Pod> {
    if calls == [] then None
    else
      var before := calls[..|calls| - 1];
      PodAfter(Run(before), PodHistory(before, id), calls[|calls| - 1], id)
  }

  lemma ProjectStep(db: Db, c: Call, name: string)
    ensures Read(Done(db, c).projects, name) == ProjectAfter(Read(db.projects, name), c, name)
  {
  }

  lemma DeploymentStep(db: Db, c: Call, id: Id)
    ensures Read(Done(db, c).deployments, id) == DeploymentAfter(db, Read(db.deployments, id), c, id)
  {
  }

  lemma PodStep(db: Db, c: Call, id: Id)
    ensures Read(Done(db, c).pods, id) == PodAfter(db, Read(db.pods, id), c, id)
  {
  }

  /** After every sequence of calls each row is what the calls about it made of it, column by column. */
  lemma {:induction false} RowsAreHistories(calls: seq<Call>, name: string, deployment: Id, pod: Id)
    ensures Read(Run(calls).projects, name) == ProjectHistory(calls, name)
    ensures Read(Run(calls).deployments, deployment) == DeploymentHistory(calls, deployment)
    ensures Read(Run(calls).pods, pod) == PodHistory(calls, pod)
  {
    if calls != [] {
      hide Done, ProjectAfter, DeploymentAfter, PodAfter;
      var before, c := calls[..|calls| - 1], calls[|calls| - 1];
      RowsAreHistories(before, name, deployment, pod);
      ProjectStep(Run(before), c, name);
      DeploymentStep(Run(before), c, deployment);
      PodStep(Run(before), c, pod);
    }
  }

  // ---- Reading back ----

  function ToDeployment(id: Id, row: Row): Deployment {
    Deployment(id, row.spec, row.status, row.createdAt, row.updatedAt)
  }

  /** `get_deployment`: the row with these key columns, read through its stored spec. */
  ghost predicate Gets(db: Db, project: string, name: string, d: Deployment) {
    exists id :: id in db.deployments && db.deployments[id].project == project &&
                 db.deployments[id].name == name && d == ToDeployment(id, db.deployments[id])
  }

  /** A deployment that was inserted is read back under its key, whole. */
  lemma InsertThenGet(db: Db, d: Deployment)
    requires Integrity(db) && !Refused(db, InsertDeployment(d))
    ensures forall x :: Gets(Done(db, InsertDeployment(d)), d.spec.project, d.spec.name, x) <==> x == d
  {
    var db' := Done(db, InsertDeployment(d));
    assert d.id in db'.deployments && ToDeployment(d.id, db'.deployments[d.id]) == d;
    forall x
      ensures Gets(db', d.spec.project, d.spec.name, x) ==> x == d
    {
      if Gets(db', d.spec.project, d.spec.name, x) {
        var id :| id in db'.deployments && db'.deployments[id].project == d.spec.project &&
                  db'.deployments[id].name == d.spec.name && x == ToDeployment(id, db'.deployments[id]);
      }
    }
  }

  /** `list_deployments`, as a set: all rows, or those of one project. */
  function Listed(db: Db, project: Option<string>): set<Deployment> {
    set id <- db.deployments | project.None? || db.deployments[id].project == project.value
      :: ToDeployment(id, db.deployments[id])
  }

  /** The key columns say what the stored spec says. */
  predicate SpecsAgree(db: Db) {
    forall id <- db.deployments ::
      db.deployments[id].spec.project == db.deployments[id].project &&
      db.deployments[id].spec.name == db.deployments[id].name
  }

  /** An update that keeps the project and the name of the spec. */
  predicate KeepsKey(db: Db, c: Call) {
    c.UpdateDeployment? && c.d.id in db.deployments ==>
      c.d.spec.project == db.deployments[c.d.id].project && c.d.spec.name == db.deployments[c.d.id].name
  }

  /** Calls keep specs and columns in step exactly when updates keep the key. */
  lemma AgreeStep(db: Db, c: Call)
    requires SpecsAgree(db)
    ensures SpecsAgree(Done(db, c)) <==> KeepsKey(db, c)
  {
    if c.UpdateDeployment? && c.d.id in db.deployments {
      assert c.d.id in Done(db, c).deployments;
    }
  }

  predicate KeepsKeys(calls: seq<Call>) {
    forall k :: 0 <= k < |calls| ==> KeepsKey(Run(calls[..k]), calls[k])
  }

  lemma KeepsKeysStep(calls: seq<Call>)
    requires calls != []
    ensures var n := |calls| - 1;
            KeepsKeys(calls) <==> KeepsKeys(calls[..n]) && KeepsKey(Run(calls[..n]), calls[n])
  {
    hide KeepsKey, Run;
    var n := |calls| - 1;
    assert forall k :: 0 <= k <= n ==> calls[..n][..k] == calls[..k];
  }

  lemma {:induction false} RunAgrees(calls: seq<Call>)
    requires KeepsKeys(calls)
    ensures SpecsAgree(Run(calls))
  {
    if calls != [] {
      hide SpecsAgree, Done, KeepsKey, KeepsKeys;
      var n := |calls| - 1;
      KeepsKeysStep(calls);
      RunAgrees(calls[..n]);
      AgreeStep(Run(calls[..n]), calls[n]);
    }
  }

  /** Columns and specs agree all along a sequence of calls exactly when its updates keep the keys. */
  lemma {:induction false} RunAgreesExactly(calls: seq<Call>)
    ensures (forall k :: 0 <= k <= |calls| ==> SpecsAgree(Run(calls[..k]))) <==> KeepsKeys(calls)
  {
    hide SpecsAgree, Done, KeepsKey, Run;
    assert calls[..|calls|] == calls;
    if KeepsKeys(calls) {
      forall k | 0 <= k <= |calls|
        ensures SpecsAgree(Run(calls[..k]))
      {
        assert forall i :: 0 <= i <= k ==> calls[..k][..i] == calls[..i];
        RunAgrees(calls[..k]);
      }
    }
    if forall k :: 0 <= k <= |calls| ==> SpecsAgree(Run(calls[..k])) {
      forall k | 0 <= k < |calls|
        ensures KeepsKey(Run(calls[..k]), calls[k])
      {
        RunSnoc(calls, k);
        assert SpecsAgree(Run(calls[..k])) && SpecsAgree(Run(calls[..k + 1]));
        AgreeStep(Run(calls[..k]), calls[k]);
      }
    }
  }

  lemma RunSnoc(calls: seq<Call>, k: nat)
    requires k < |calls|
    ensures Run(calls[..k + 1]) == Done(Run(calls[..k]), calls[k])
  {
    hide Done;
    assert calls[..k + 1][..k] == calls[..k] && calls[..k + 1][k] == calls[k];
  }

  /** What is read under a key is named by that key, for every key, exactly when columns and specs agree. */
  lemma NamedExactly(db: Db)
    ensures (forall project, name, d ::
               Gets(db, project, name, d) ==> d.spec.project == project && d.spec.name == name) <==>
            SpecsAgree(db)
  {
    forall id | id in db.deployments
      ensures var row := db.deployments[id]; Gets(db, row.project, row.name, ToDeployment(id, row))
    {
    }
  }

  /** Updates that change the key do happen: the deployment is then read under a name it has not. */
  lemma MisnamedExample()
    ensures var spec := Spec("p", "a", 1, "x");
            var d := Deployment(0, spec, "running", 0, 0);
            var renamed := d.(spec := spec.(name := "b"));
            var calls := [InsertProject(Project("p", "active", 0)), InsertDeployment(d), UpdateDeployment(renamed)];
            && !KeepsKey(Run(calls[..2]), calls[2])
            && Gets(Run(calls), "p", "a", renamed) && renamed.spec.name != "a"
            && !exists other :: Gets(Run(calls), "p", "b", other)
  {
    var spec := Spec("p", "a", 1, "x");
    var d := Deployment(0, spec, "running", 0, 0);
    var renamed := d.(spec := spec.(name := "b"));
    var calls := [InsertProject(Project("p", "active", 0)), InsertDeployment(d), UpdateDeployment(renamed)];
    assert calls[..2][..1] == calls[..1] && calls[..1][..0] == [];
    assert Run(calls[..1]) == Db(map["p" := calls[0].p], map[], map[]);
    var row := RowOf(d);
    assert Run(calls[..2]) == Db(map["p" := calls[0].p], map[0 := row], map[]);
    assert Run(calls) == Db(map["p" := calls[0].p], map[0 := row.(spec := renamed.spec)], map[]);
    assert "a" != "b" by { assert "a"[0] != "b"[0]; }
  }

  /** And an update to another project leaves the deployment in the listing of its old project. */
  lemma MislistedExample()
    ensures var spec := Spec("p", "a", 1, "x");
            var d := Deployment(0, spec, "running", 0, 0);
            var moved := d.(spec := spec.(project := "q"));
            var calls := [InsertProject(Project("p", "active", 0)), InsertDeployment(d), UpdateDeployment(moved)];
            && Listed(Run(calls), Some("p")) == {moved} && moved.spec.project != "p"
            && Listed(Run(calls), Some("q")) == {}
            && Listed(Run(calls), Some("p")) != set x <- Listed(Run(calls), None) | x.spec.project == "p"
  {
    var spec := Spec("p", "a", 1, "x");
    var d := Deployment(0, spec, "running", 0, 0);
    var moved := d.(spec := spec.(project := "q"));
    var calls := [InsertProject(Project("p", "active", 0)), InsertDeployment(d), UpdateDeployment(moved)];
    assert "p" != "q" by { assert "p"[0] != "q"[0]; }
    var db := Db(map["p" := calls[0].p], map[0 := RowOf(d).(spec := moved.spec)], map[]);
    assert Run(calls) == db by {
      assert calls[..2][..1] == calls[..1] && calls[..1][..0] == [];
      assert Run(calls[..1]) == Db(map["p" := calls[0].p], map[], map[]);
      assert Run(calls[..2]) == Db(map["p" := calls[0].p], map[0 := RowOf(d)], map[]);
    }
    assert ToDeployment(0, db.deployments[0]) == moved;
    assert moved in Listed(db, Some("p"));
    assert moved !in set x <- Listed(db, None) | x.spec.project == "p";
  }

  /** While updates keep the key, what is read under (project, name) is named (project, name). */
  lemma GetsNamed(calls: seq<Call>, project: string, name: string, d: Deployment)
    requires KeepsKeys(calls) && Gets(Run(calls), project, name, d)
    ensures d.spec.project == project && d.spec.name == name
    ensures forall other :: Gets(Run(calls), project, name, other) ==> other == d
  {
    hide Run;
    RunAgrees(calls);
    RunIntegrity(calls);
  }

  /**
   * Listing one project equals filtering the whole listing by the specs' projects, for every
   * project, exactly when the project column of every row is the one in its spec.
   */
  lemma FilteredListing(db: Db)
    ensures (forall p :: Listed(db, Some(p)) == set d <- Listed(db, None) | d.spec.project == p) <==>
            (forall id <- db.deployments :: db.deployments[id].spec.project == db.deployments[id].project)
  {
    forall id | id in db.deployments
      ensures ToDeployment(id, db.deployments[id]) in Listed(db, None)
      ensures ToDeployment(id, db.deployments[id]) in Listed(db, Some(db.deployments[id].project))
    {
    }
    if forall p :: Listed(db, Some(p)) == set d <- Listed(db, None) | d.spec.project == p {
      forall id | id in db.deployments
        ensures db.deployments[id].spec.project == db.deployments[id].project
      {
        var d := ToDeployment(id, db.deployments[id]);
        var p := db.deployments[id].project;
        assert d in Listed(db, Some(p));
        assert d in set d <- Listed(db, None) | d.spec.project == p;
      }
    }
  }
}
