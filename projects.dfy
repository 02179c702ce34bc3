/** `GET /projects/`: the projects the caller owns, ordered by id. */
module Projects {
  import opened Common
  import opened Sorting

  /** A row of the Projects table. */
  datatype Project = Project(id: int, owner: int, name: string, category: Option<int>, description: Option<string>, created: int)

  function ProjectId(p: Project): int
  {
    p.id
  }

  /** `ORDER BY id`. */
  function ProjectKey(p: Project): seq<int>
  {
    [p.id]
  }

  /** A one-column key orders rows as their ids do. */
  lemma ProjectKeyOrder(p: Project, q: Project)
    ensures LexLe(ProjectKey(p), ProjectKey(q)) <==> p.id <= q.id
  {
    assert ProjectKey(p)[1..] == [] && ProjectKey(q)[1..] == [];
  }

  /**
   * `SELECT * FROM Projects WHERE owner = ? ORDER BY id`, each row copied
   * unchanged into the response by `dict(project)`.
   */
  function GetProjects(table: seq<Project>, userId: int): (r: seq<Project>)
    ensures forall p :: p in r ==> p.owner == userId
    ensures forall p :: p in table && p.owner == userId ==> p in r
    ensures forall p :: multiset(r)[p] == if p.owner == userId then multiset(table)[p] else 0
    ensures forall i, j :: 0 <= i < j < |r| ==> r[i].id <= r[j].id
  {
    var rows := Filter(table, (p: Project) => p.owner == userId);
    var sorted := SortBy(rows, ProjectKey);
    SortBySorted(rows, ProjectKey);
    assert forall i, j :: 0 <= i < j < |sorted| ==> sorted[i].id <= sorted[j].id by {
      forall i, j | 0 <= i < j < |sorted| ensures sorted[i].id <= sorted[j].id {
        ProjectKeyOrder(sorted[i], sorted[j]);
      }
    }
    assert forall p :: p in sorted <==> multiset(sorted)[p] > 0;
    sorted
  }

  /** With `id` the primary key, the listing is strictly ascending by id. */
  lemma GetProjectsStrictlyAscending(table: seq<Project>, userId: int)
    requires UniqueBy(table, ProjectId)
    ensures var r := GetProjects(table, userId);
      forall i, j :: 0 <= i < j < |r| ==> r[i].id < r[j].id
  {
    var r := GetProjects(table, userId);
    forall i, j | 0 <= i < j < |r|
      ensures r[i].id != r[j].id
    {
      assert r[i] in r && r[j] in r;
      var a :| 0 <= a < |table| && table[a] == r[i];
      var b :| 0 <= b < |table| && table[b] == r[j];
      if r[i] == r[j] {
        TwoPositions(r, i, j);
        UniqueByNoDuplicates(table, ProjectId);
        assert false;
      }
      assert a != b && ProjectId(table[a]) == r[i].id && ProjectId(table[b]) == r[j].id;
    }
  }
}
