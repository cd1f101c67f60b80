/** The job-application dashboard: an in-memory copy of the server's record
    list, one shared add/edit form, and the handlers that patch the list from
    server responses. Every handler is one atomic step on an explicit state;
    the outcome of its request is a parameter. */
module Dashboard {
  import opened Wrappers

  /** A record id as the server sends it in JSON: a number or a string. */
  datatype JsId = Num(n: int) | Str(s: string)

  /** JavaScript truthiness of an id: `0` and `""` are falsy. */
  predicate Truthy(id: JsId)
    ensures Truthy(id) <==> id != Num(0) && id != Str("")
  {
    match id
    case Num(n) => n != 0
    case Str(s) => s != ""
  }

  /** The test `editingJob ? … : …`; `null` is falsy. */
  predicate IsEditing(editing: Option<JsId>)
    ensures IsEditing(editing) <==>
              editing != None && editing != Some(Num(0)) && editing != Some(Str(""))
  {
    editing.Some? && Truthy(editing.value)
  }

  /** One job-application record. `appliedDate` is kept as the opaque string
      the server and the date input exchange. */
  datatype Job = Job(id: JsId, companyName: string, position: string,
                     appliedDate: string, status: string, notes: string)

  /** The form's field values: a record without its id. */
  datatype Draft = Draft(companyName: string, position: string,
                         appliedDate: string, status: string, notes: string)

  const Pending: string := "Pending"

  /** The form after a reset: empty text fields, status "Pending". */
  const BlankDraft: Draft := Draft("", "", "", Pending, "")

  datatype State = State(jobs: seq<Job>, editingJob: Option<JsId>,
                         loading: bool, formData: Draft)

  /** The component's initial state, before the fetch effect settles. */
  function Init(): (s: State)
    ensures |s.jobs| == 0 && s.editingJob == None && s.loading
    ensures s.formData.status == Pending
    ensures s.formData.companyName == s.formData.position == s.formData.appliedDate
            == s.formData.notes == ""
  {
    State([], None, true, BlankDraft)
  }

  /** The five fields `handleEdit` copies from a record into the form. */
  function DraftOf(job: Job): (d: Draft)
    ensures WithId(d, job.id) == job
  {
    Draft(job.companyName, job.position, job.appliedDate, job.status, job.notes)
  }

  /** A record built from a draft and an id. */
  function WithId(d: Draft, id: JsId): Job
  {
    Job(id, d.companyName, d.position, d.appliedDate, d.status, d.notes)
  }

  // ---------------------------------------------------------------------------
  // Id-keyed list operations

  /** Number of records whose id is `x`. */
  function CountId(jobs: seq<Job>, x: JsId): (c: nat)
    ensures c <= |jobs|
    ensures c == 0 <==> forall i :: 0 <= i < |jobs| ==> jobs[i].id != x
  {
    if |jobs| == 0 then 0
    else (if jobs[0].id == x then 1 else 0) + CountId(jobs[1..], x)
  }

  /** No two records share an id. */
  predicate UniqueIds(jobs: seq<Job>)
  {
    forall i, j :: 0 <= i < j < |jobs| ==> jobs[i].id != jobs[j].id
  }

  /** `jobs.map(job => job.id === target ? res : job)`; a `null` target
      matches no record. */
  function ReplaceById(jobs: seq<Job>, target: Option<JsId>, res: Job): (r: seq<Job>)
    ensures |r| == |jobs|
    ensures forall i :: 0 <= i < |jobs| && target == Some(jobs[i].id) ==> r[i] == res
    ensures forall i :: 0 <= i < |jobs| && target != Some(jobs[i].id) ==> r[i] == jobs[i]
  {
    if |jobs| == 0 then []
    else [if target == Some(jobs[0].id) then res else jobs[0]]
         + ReplaceById(jobs[1..], target, res)
  }

  /** `jobs.filter(job => job.id !== x)`. */
  function RemoveId(jobs: seq<Job>, x: JsId): (r: seq<Job>)
    ensures forall j :: j in r <==> j in jobs && j.id != x
    ensures |r| == |jobs| - CountId(jobs, x)
    ensures CountId(jobs, x) == 0 ==> r == jobs
  {
    if |jobs| == 0 then []
    else (if jobs[0].id == x then [] else [jobs[0]]) + RemoveId(jobs[1..], x)
  }

  // ---------------------------------------------------------------------------
  // Handlers

  /** The fetch effect: on success the list becomes the response; either way
      loading ends. */
  function Fetch(s: State, r: Response<seq<Job>>): (s': State)
    ensures !s'.loading
    ensures s'.jobs == (if r.Success? then r.value else s.jobs)
    ensures s'.editingJob == s.editingJob && s'.formData == s.formData
  {
    match r
    case Success(fetched) => s.(jobs := fetched, loading := false)
    case Failure => s.(loading := false)
  }

  /** `handleSubmit`: append the created record and reset the form. */
  function Create(s: State, r: Response<Job>): (s': State)
    ensures r.Failure? ==> s' == s
    ensures r.Success? ==>
      && |s'.jobs| == |s.jobs| + 1
      && s'.jobs[..|s.jobs|] == s.jobs
      && s'.jobs[|s.jobs|] == r.value
      && s'.formData == BlankDraft
      && s'.editingJob == s.editingJob
      && s'.loading == s.loading
  {
    match r
    case Success(created) => s.(jobs := s.jobs + [created], formData := BlankDraft)
    case Failure => s
  }

  /** `handleEdit`: select a record for editing and load it into the form. */
  function BeginEdit(s: State, job: Job): (s': State)
    ensures s'.editingJob == Some(job.id)
    ensures WithId(s'.formData, job.id) == job
    ensures s'.jobs == s.jobs && s'.loading == s.loading
  {
    s.(editingJob := Some(job.id), formData := DraftOf(job))
  }

  /** The Cancel button: leave edit mode, keeping whatever the form holds. */
  function Cancel(s: State): (s': State)
    ensures s'.editingJob == None && !IsEditing(s'.editingJob)
    ensures s'.formData == s.formData
    ensures s'.jobs == s.jobs && s'.loading == s.loading
  {
    s.(editingJob := None)
  }

  /** `handleEditSubmit`: replace every record whose id is the edit target,
      leave edit mode and reset the form. */
  function Update(s: State, r: Response<Job>): (s': State)
    ensures r.Failure? ==> s' == s
    ensures r.Success? ==>
      && |s'.jobs| == |s.jobs|
      && (forall i :: 0 <= i < |s.jobs| ==>
            s'.jobs[i] == (if s.editingJob == Some(s.jobs[i].id) then r.value else s.jobs[i]))
      && s'.editingJob == None
      && s'.formData == BlankDraft
      && s'.loading == s.loading
  {
    match r
    case Success(updated) =>
      s.(jobs := ReplaceById(s.jobs, s.editingJob, updated), editingJob := None,
         formData := BlankDraft)
    case Failure => s
  }

  /** `handleDelete(id)`: drop every record with that id. The edit target and
      the form are never touched. */
  function Delete(s: State, id: JsId, r: Response<()>): (s': State)
    ensures r.Failure? ==> s' == s
    ensures r.Success? ==> s'.jobs == RemoveId(s.jobs, id)
    ensures s'.editingJob == s.editingJob && s'.formData == s.formData
    ensures s'.loading == s.loading
  {
    match r
    case Success(_) => s.(jobs := RemoveId(s.jobs, id))
    case Failure => s
  }

  /** The form's `onSubmit`: update when the edit target is truthy, create
      otherwise. */
  function Submit(s: State, r: Response<Job>): (s': State)
    ensures r.Failure? ==> s' == s
    ensures r.Success? ==> (|s'.jobs| == |s.jobs| + 1 <==> !IsEditing(s.editingJob))
    ensures r.Success? && IsEditing(s.editingJob) ==>
      && s'.editingJob == None
      && |s'.jobs| == |s.jobs|
      && forall i :: 0 <= i < |s.jobs| ==>
           s'.jobs[i] == (if s.jobs[i].id == s.editingJob.value then r.value else s.jobs[i])
    ensures r.Success? && !IsEditing(s.editingJob) ==>
      && s'.jobs == s.jobs + [r.value]
      && s'.editingJob == s.editingJob
    ensures r.Success? ==> s'.formData == BlankDraft
  {
    if IsEditing(s.editingJob) then Update(s, r) else Create(s, r)
  }

  // ---------------------------------------------------------------------------
  // Properties

  /** The state before any request settles, and what the fetch effect makes
      of it. */
  lemma InitialFetch(r: Response<seq<Job>>)
    ensures Init().jobs == [] && Init().editingJob == None && Init().loading
    ensures Init().formData.status == Pending
    ensures var s := Fetch(Init(), r);
      && !s.loading
      && s.jobs == (if r.Success? then r.value else [])
      && s.editingJob == None
      && s.formData == BlankDraft
  {
  }

  /** Editing a record whose id is the number 0 still creates: the id is
      falsy, so the form appends a new record and stays "editing" 0. */
  lemma ZeroIdCreates(s: State, job: Job, res: Job)
    requires job.id == Num(0)
    ensures var s' := Submit(BeginEdit(s, job), Success(res));
      && s'.jobs == s.jobs + [res]
      && s'.editingJob == Some(Num(0))
      && s'.formData == BlankDraft
  {
  }

  /** Cancel keeps the loaded draft, so the next submit creates a new record
      carrying the cancelled edit's fields. */
  lemma CancelKeepsDraft(s: State, job: Job, res: Job)
    ensures Cancel(BeginEdit(s, job)).formData == DraftOf(job)
    ensures Cancel(BeginEdit(s, job)).editingJob == None
    ensures Submit(Cancel(BeginEdit(s, job)), Success(res)).jobs == s.jobs + [res]
  {
  }

  /** A second update with the same response changes nothing more. */
  lemma ReplaceIdempotent(jobs: seq<Job>, target: Option<JsId>, res: Job)
    ensures ReplaceById(ReplaceById(jobs, target, res), target, res) == ReplaceById(jobs, target, res)
  {
  }

  /** Replacing a target no record carries leaves the list as it was. */
  lemma ReplaceAbsent(jobs: seq<Job>, x: JsId, res: Job)
    requires CountId(jobs, x) == 0
    ensures ReplaceById(jobs, Some(x), res) == jobs
  {
  }

  /** An update whose response keeps the target's id, on a list with unique
      ids, keeps the ids unique. */
  lemma UpdatePreservesUnique(s: State, res: Job)
    requires UniqueIds(s.jobs)
    requires s.editingJob == Some(res.id)
    ensures UniqueIds(Update(s, Success(res)).jobs)
  {
  }

  /** Filtering distributes over concatenation: delete keeps the relative
      order of the surviving records. */
  lemma {:induction false} RemoveAppend(a: seq<Job>, b: seq<Job>, x: JsId)
    ensures RemoveId(a + b, x) == RemoveId(a, x) + RemoveId(b, x)
    decreases |a|
  {
    if |a| == 0 {
      assert a + b == b;
    } else {
      assert (a + b)[0] == a[0];
      assert (a + b)[1..] == a[1..] + b;
      RemoveAppend(a[1..], b, x);
    }
  }

  /** Deleting the same id twice is the same as deleting it once. */
  lemma RemoveIdempotent(jobs: seq<Job>, x: JsId)
    ensures RemoveId(RemoveId(jobs, x), x) == RemoveId(jobs, x)
  {
  }

  /** The number of records with id `x` in a concatenation. */
  lemma {:induction false} CountAppend(a: seq<Job>, b: seq<Job>, x: JsId)
    ensures CountId(a + b, x) == CountId(a, x) + CountId(b, x)
    decreases |a|
  {
    if |a| == 0 {
      assert a + b == b;
    } else {
      assert (a + b)[0] == a[0];
      assert (a + b)[1..] == a[1..] + b;
      CountAppend(a[1..], b, x);
    }
  }

  /** With unique ids an id occurs at most once. */
  lemma {:induction false} UniqueCountAtMostOne(jobs: seq<Job>, x: JsId)
    requires UniqueIds(jobs)
    ensures CountId(jobs, x) <= 1
    decreases |jobs|
  {
    if |jobs| > 0 {
      assert UniqueIds(jobs[1..]) by {
        forall i, j | 0 <= i < j < |jobs[1..]|
          ensures jobs[1..][i].id != jobs[1..][j].id
        {
          assert jobs[1..][i] == jobs[i + 1] && jobs[1..][j] == jobs[j + 1];
        }
      }
      UniqueCountAtMostOne(jobs[1..], x);
      if jobs[0].id == x {
        assert forall i :: 0 <= i < |jobs[1..]| ==> jobs[1..][i].id != x by {
          forall i | 0 <= i < |jobs[1..]|
            ensures jobs[1..][i].id != x
          {
            assert jobs[1..][i] == jobs[i + 1];
          }
        }
      }
    }
  }

  /** With unique ids, deleting a present id removes exactly one record. */
  lemma DeleteRemovesOne(s: State, x: JsId)
    requires UniqueIds(s.jobs)
    requires exists i :: 0 <= i < |s.jobs| && s.jobs[i].id == x
    ensures |Delete(s, x, Success(())).jobs| == |s.jobs| - 1
  {
    UniqueCountAtMostOne(s.jobs, x);
  }

  /** The tail of a list with unique ids has unique ids, none equal to the
      head's. */
  lemma UniqueTail(jobs: seq<Job>)
    requires |jobs| > 0 && UniqueIds(jobs)
    ensures UniqueIds(jobs[1..])
    ensures forall j :: j in jobs[1..] ==> j.id != jobs[0].id
  {
  }

  /** Putting a record with a new id in front keeps ids unique. */
  lemma UniqueCons(head: Job, rest: seq<Job>)
    requires UniqueIds(rest)
    requires forall j :: j in rest ==> j.id != head.id
    ensures UniqueIds([head] + rest)
  {
    var r := [head] + rest;
    forall i, j | 0 <= i < j < |r|
      ensures r[i].id != r[j].id
    {
      assert r[j] == rest[j - 1];
      if i == 0 {
        assert rest[j - 1] in rest;
      } else {
        assert r[i] == rest[i - 1];
      }
    }
  }

  /** Deleting keeps unique ids unique. */
  lemma {:induction false} RemovePreservesUnique(jobs: seq<Job>, x: JsId)
    requires UniqueIds(jobs)
    ensures UniqueIds(RemoveId(jobs, x))
    decreases |jobs|
  {
    if |jobs| > 0 {
      var tail := jobs[1..];
      UniqueTail(jobs);
      RemovePreservesUnique(tail, x);
      var rest := RemoveId(tail, x);
      if jobs[0].id != x {
        assert forall j :: j in rest ==> j.id != jobs[0].id;
        UniqueCons(jobs[0], rest);
      }
    }
  }

  /** Creating a record with a fresh id and then deleting it restores the
      list. */
  lemma CreateThenDelete(s: State, res: Job)
    requires CountId(s.jobs, res.id) == 0
    ensures Delete(Create(s, Success(res)), res.id, Success(())).jobs == s.jobs
  {
    RemoveAppend(s.jobs, [res], res.id);
    assert RemoveId([res], res.id) == [];
  }

  /** Deleting the record being edited leaves a dangling edit target; the
      next successful submit still takes the update path, discards the
      server's response and leaves the list as the delete made it. */
  lemma DanglingEdit(s: State, job: Job, res: Job)
    requires Truthy(job.id)
    ensures var d := Delete(BeginEdit(s, job), job.id, Success(()));
      && d.editingJob == Some(job.id)
      && Submit(d, Success(res)).jobs == RemoveId(s.jobs, job.id)
      && Submit(d, Success(res)).editingJob == None
  {
  }
}
