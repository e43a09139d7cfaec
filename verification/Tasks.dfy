/** Tasks as they are stored in etcd, and the lookups over a task list. */
module Tasks {
  import opened Common

  datatype Status = SYNC | DELETE

  datatype ClusterType = CS | NACOS | EUREKA | CONSUL | ZK

  datatype Task = Task(taskId: string, sourceClusterId: string, destClusterId: string, serviceName: string,
                       version: string, groupName: string, nameSpace: string, workerIp: string,
                       status: Status, operationId: string)

  /** TaskStatusEnum: the code of each status. */
  function StatusOf(code: string): Option<Status>
  {
    if code == "SYNC" then Some(SYNC) else if code == "DELETE" then Some(DELETE) else None
  }

  /** The first task of the list with the operation id. */
  function FindByOperationId(tasks: seq<Task>, operationId: string): (found: Option<Task>)
    ensures found.Some? <==> exists t :: t in tasks && t.operationId == operationId
    ensures found.Some? ==> found.value in tasks && found.value.operationId == operationId
  {
    if tasks == [] then None
    else if tasks[0].operationId == operationId then Some(tasks[0])
    else FindByOperationId(tasks[1..], operationId)
  }

  lemma {:induction false} FindsFirst(tasks: seq<Task>, operationId: string)
    ensures match FindByOperationId(tasks, operationId)
            case None => forall t :: t in tasks ==> t.operationId != operationId
            case Some(found) =>
              exists k :: 0 <= k < |tasks| && tasks[k] == found && found.operationId == operationId
                          && forall j :: 0 <= j < k ==> tasks[j].operationId != operationId
  {
    if tasks != [] && tasks[0].operationId != operationId {
      FindsFirst(tasks[1..], operationId);
      if FindByOperationId(tasks, operationId).Some? {
        var found := FindByOperationId(tasks, operationId).value;
        var k :| 0 <= k < |tasks[1..]| && tasks[1..][k] == found
                 && forall j :: 0 <= j < k ==> tasks[1..][j].operationId != operationId;
        assert tasks[k + 1] == found;
        assert forall j :: 0 < j <= k ==> tasks[j] == tasks[1..][j - 1];
      }
    }
  }

  function FindByServiceName(tasks: seq<Task>, serviceName: string): seq<Task>
  {
    if tasks == [] then []
    else (if tasks[0].serviceName == serviceName then [tasks[0]] else []) + FindByServiceName(tasks[1..], serviceName)
  }

  /** The lookup keeps the order and the multiplicity of the tasks with the name, and no other task. */
  lemma {:induction false} FindByServiceNameIs(tasks: seq<Task>, more: seq<Task>, t: Task, serviceName: string)
    ensures FindByServiceName(tasks + more, serviceName) ==
            FindByServiceName(tasks, serviceName) + FindByServiceName(more, serviceName)
    ensures FindByServiceName([t], serviceName) == if t.serviceName == serviceName then [t] else []
  {
    assert [t][1..] == [];
    assert FindByServiceName([t][1..], serviceName) == [];
    if tasks == [] {
      assert tasks + more == more;
    } else {
      FindByServiceNameIs(tasks[1..], more, t, serviceName);
      assert (tasks + more)[1..] == tasks[1..] + more;
    }
  }

  predicate DistinctOperationIds(tasks: seq<Task>)
  {
    forall t, u :: t in tasks && u in tasks && t.operationId == u.operationId ==> t == u
  }
}
