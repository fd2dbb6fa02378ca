/** Setting job priorities through the API, and what of it reaches the sort key of a round
    (src/utils/JobRestAPIUtils.py, adjust_job_priority and update_job_priorites). */
module JobPriorities {
  import opened Jobs
  import opened SortKey
  import opened Scheduler

  datatype Permission = User | Admin | Neither

  function Lowest(permission: Permission): int {
    match permission
    case Neither => 100
    case User => 100
    case Admin => 1
  }

  function Highest(permission: Permission): int {
    match permission
    case Neither => 100
    case User => 200
    case Admin => 1000
  }

  /** The nearest priority that the permission allows. */
  function AdjustPriority(priority: int, permission: Permission): (r: int)
    ensures permission == Admin ==> 1 <= r <= 1000 && (r == priority || (priority > r == 1000) || (priority < r == 1))
    ensures permission == User ==> 100 <= r <= 200 && (r == priority || (priority > r == 200) || (priority < r == 100))
    ensures permission == Neither ==> r == 100
  {
    if priority > Highest(permission) then Highest(permission)
    else if priority < Lowest(permission) then Lowest(permission)
    else priority
  }

  /** Who submitted a job, and whether the caller of an update administers its virtual cluster. */
  datatype Row = Row(user: string, admin: bool)

  /** The priority an update stores: jobs that are not in the table keep the requested number as it is. */
  function Adjusted(rows: map<JobId, Row>, id: JobId, priority: int): int {
    if id in rows then AdjustPriority(priority, if rows[id].admin then Admin else User) else priority
  }

  /** One call of the API; an unauthorized job refuses all of it. */
  method UpdateJobPriorities(caller: string, requested: Priorities, rows: map<JobId, Row>, stored: Priorities)
    returns (ok: bool, stored': Priorities)
    ensures ok <==> forall id | id in requested && id in rows :: rows[id].user == caller || rows[id].admin
    ensures stored' == if ok then stored + map id | id in requested :: Adjusted(rows, id, requested[id]) else stored
    ensures ok ==> forall id | id in requested && id in rows ::
              var (p, r) := (requested[id], stored'[id]);
              if rows[id].admin then 1 <= r <= 1000 && (r == p || (p > r == 1000) || (p < r == 1))
              else 100 <= r <= 200 && (r == p || (p > r == 200) || (p < r == 100))
  {
    var priorities, todo := requested, requested.Keys;
    while todo != {}
      invariant todo <= requested.Keys && priorities.Keys == requested.Keys
      invariant forall id | id in requested ::
                  priorities[id] == if id in todo then requested[id] else Adjusted(rows, id, requested[id])
      invariant forall id | id in requested && id in rows && id !in todo :: rows[id].user == caller || rows[id].admin
    {
      var id :| id in todo;
      todo := todo - {id};
      if id in rows {
        if rows[id].user != caller && !rows[id].admin {
          return false, stored;
        }
        priorities := priorities[id := AdjustPriority(priorities[id], if rows[id].admin then Admin else User)];
      }
    }
    assert priorities == map id | id in requested :: Adjusted(rows, id, requested[id]);
    return true, stored + priorities;
  }

  /** Every job in the table has a priority that some permission allows. */
  predicate Bounded(rows: map<JobId, Row>, stored: Priorities) {
    forall id | id in rows && id in stored :: 1 <= stored[id] <= 1000
  }

  /** Updates keep the priorities of the jobs in the table within 1..1000. A new job keeps them there exactly if no
      priority out of that range was stored for its id before it existed; submitting it with a priority always does. */
  lemma BoundedExactly(rows: map<JobId, Row>, stored: Priorities, requested: Priorities, id: JobId, row: Row, permission: Permission, p: int)
    requires Bounded(rows, stored) && id !in rows
    ensures Bounded(rows, stored + map i | i in requested :: Adjusted(rows, i, requested[i]))
    ensures Bounded(rows[id := row], stored) <==> (id in stored ==> 1 <= stored[id] <= 1000)
    ensures Bounded(rows[id := row], stored[id := AdjustPriority(p, permission)])
  {
    assert id in rows[id := row];
  }

  /** Bounded priorities order as promised: a round never treats a job before one the comments put first. */
  lemma BoundedOrder(table: map<JobId, Row>, priorities: Priorities, rows: seq<Job>, i: nat, j: nat)
    requires Bounded(table, priorities) && forall row | row in rows :: row.id in table
    requires i < j < |RoundOrder(priorities, rows)|
    ensures !Before(priorities, RoundOrder(priorities, rows)[j], RoundOrder(priorities, rows)[i])
  {
    forall row | row in rows ensures PriorityInRange(Recorded(priorities, row.id)) {
      assert row.id in table;
    }
    RoundOrderPromised(priorities, rows, i, j);
  }

  /** A priority for an id that is not in the table is stored as requested, out of every range. */
  lemma UnknownJobUnadjusted(id: JobId, priority: int)
    ensures Adjusted(map[], id, priority) == priority
    ensures Bounded(map[], map[id := priority])
    ensures Bounded(map[id := Row("", false)], map[id := priority]) <==> 1 <= priority <= 1000
  {
    assert id in map[id := Row("", false)];
  }
}
