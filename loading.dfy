/**
 * Loading `job.rb`: each `class ... < ...` definition runs its superclass's
 * `inherited` hook, so by the end the registry on `BetterBJ::Table` lists
 * every job class and has an accessor for each.
 */
module JobTables {
  import opened Wrappers
  import opened Sequences
  import opened Naming
  import opened Tables
  import opened Jobs

  /** The order in which `job.rb` defines its classes. */
  const LoadOrder: seq<JobKind> :=
    [Job, ActiveJob, ActiveCodeJob, ActiveRubyScriptJob, ActiveRakeTaskJob, ActiveShellCommandJob, ExecutedJob]

  /** Every job class is defined by the file. */
  lemma LoadOrderIsComplete(k: JobKind)
    ensures k in LoadOrder
  {
    match k
    case Job => assert LoadOrder[0] == k;
    case ActiveJob => assert LoadOrder[1] == k;
    case ActiveCodeJob => assert LoadOrder[2] == k;
    case ActiveRubyScriptJob => assert LoadOrder[3] == k;
    case ActiveRakeTaskJob => assert LoadOrder[4] == k;
    case ActiveShellCommandJob => assert LoadOrder[5] == k;
    case ExecutedJob => assert LoadOrder[6] == k;
  }

  /** Each class is defined once, and after its superclass. */
  lemma LoadOrderDefinesParentsFirst(n: nat)
    requires n < |LoadOrder|
    ensures LoadOrder[n] !in LoadOrder[..n]
    ensures Superclass(LoadOrder[n]).Some? ==> Superclass(LoadOrder[n]).value in LoadOrder[..n]
  {
    var done := LoadOrder[..n];
    if n == 0 {
      assert done == [];
    } else if n == 1 {
      assert done == [Job];
    } else if n == 2 {
      assert done == [Job, ActiveJob];
    } else if n == 3 {
      assert done == [Job, ActiveJob, ActiveCodeJob];
    } else if n == 4 {
      assert done == [Job, ActiveJob, ActiveCodeJob, ActiveRubyScriptJob];
    } else if n == 5 {
      assert done == [Job, ActiveJob, ActiveCodeJob, ActiveRubyScriptJob, ActiveRakeTaskJob];
    } else {
      assert done == [Job, ActiveJob, ActiveCodeJob, ActiveRubyScriptJob, ActiveRakeTaskJob, ActiveShellCommandJob];
    }
  }

  /** Distinct job classes are distinct class objects. */
  lemma ClassOfInjective(a: JobKind, b: JobKind)
    ensures ClassOf(a) == ClassOf(b) ==> a == b
  {
  }

  /** The class objects of `ks`, in order. */
  function Classes(ks: seq<JobKind>): (r: seq<TableClass>)
    ensures |r| == |ks| && forall i :: 0 <= i < |ks| ==> r[i] == ClassOf(ks[i])
    decreases |ks|
  {
    if |ks| == 0 then [] else Classes(ks[..|ks| - 1]) + [ClassOf(ks[|ks| - 1])]
  }

  lemma ClassListed(ks: seq<JobKind>, k: JobKind)
    ensures ClassOf(k) in Classes(ks) <==> k in ks
  {
    if ClassOf(k) in Classes(ks) {
      var i :| 0 <= i < |ks| && Classes(ks)[i] == ClassOf(k);
      ClassOfInjective(ks[i], k);
    }
    if k in ks {
      var i :| 0 <= i < |ks| && ks[i] == k;
      assert Classes(ks)[i] == ClassOf(k);
    }
  }

  /** The accessors the hook has defined once the classes `ks` exist. */
  function AccessorsOf(ks: seq<JobKind>): map<string, TableClass>
    decreases |ks|
  {
    if |ks| == 0 then map[]
    else AccessorsOf(ks[..|ks| - 1])[SelectorOf(ks[|ks| - 1]) := ClassOf(ks[|ks| - 1])]
  }

  /** After the classes `ks`, `Table` has exactly their accessors, and each
      answers its own class. */
  lemma {:induction false} AccessorsOfSpec(ks: seq<JobKind>)
    ensures forall k :: SelectorOf(k) in AccessorsOf(ks) <==> k in ks
    ensures forall k :: k in ks ==> AccessorsOf(ks)[SelectorOf(k)] == ClassOf(k)
    ensures forall selector :: selector in AccessorsOf(ks) ==> exists k :: k in ks && selector == SelectorOf(k)
    decreases |ks|
  {
    if |ks| > 0 {
      var init, last := ks[..|ks| - 1], ks[|ks| - 1];
      AccessorsOfSpec(init);
      assert ks == init + [last];
      forall k
        ensures SelectorOf(k) in AccessorsOf(ks) <==> k in ks
        ensures k in ks ==> AccessorsOf(ks)[SelectorOf(k)] == ClassOf(k)
      {
        SelectorOfInjective(k, last);
      }
    }
  }

  /** The whole load order, as the last prefix `Declare` reaches. */
  lemma LoadOrderWhole()
    ensures Classes(LoadOrder[..|LoadOrder|]) == Classes(LoadOrder)
    ensures AccessorsOf(LoadOrder[..|LoadOrder|]) == AccessorsOf(LoadOrder)
  {
    assert LoadOrder[..|LoadOrder|] == LoadOrder;
  }

  /** Running the definition of the `n`-th class of `job.rb`. */
  method Declare(table: Table, n: nat)
    requires n < |LoadOrder|
    requires table.Valid() && table.list == Classes(LoadOrder[..n]) && table.accessors == AccessorsOf(LoadOrder[..n])
    modifies table
    ensures table.Valid() && table.list == Classes(LoadOrder[..n + 1])
    ensures table.accessors == AccessorsOf(LoadOrder[..n + 1])
  {
    var k := LoadOrder[n];
    var done := LoadOrder[..n];
    assert LoadOrder[..n + 1] == done + [k];
    assert LoadOrder[..n + 1][..n] == done;
    LoadOrderDefinesParentsFirst(n);
    ClassListed(done, k);
    ClassAccessorName(k);
    var parent := TableRoot;
    if Superclass(k).Some? {
      parent := ClassOf(Superclass(k).value);
      ClassListed(done, Superclass(k).value);
    }
    var outcome := table.DefineSubclass(ClassOf(k), parent, false);
    assert Classes(done + [k]) == Classes(done) + [ClassOf(k)];
  }

  /** Loading `job.rb` runs its class definitions in file order, each with
      its declared superclass. */
  method LoadJobTables() returns (table: Table)
    ensures fresh(table) && table.Valid()
    ensures table.list == Classes(LoadOrder) && table.accessors == AccessorsOf(LoadOrder)
  {
    table := new Table();
    // `defined` counts the class definitions run so far.
    var defined := 0;
    assert LoadOrder[..defined] == [];
    Declare(table, defined);  // class Job < Table
    defined := defined + 1;
    Declare(table, defined);  // class ActiveJob < Job
    defined := defined + 1;
    Declare(table, defined);  // class ActiveCodeJob < ActiveJob
    defined := defined + 1;
    Declare(table, defined);  // class ActiveRubyScriptJob < ActiveJob
    defined := defined + 1;
    Declare(table, defined);  // class ActiveRakeTaskJob < ActiveJob
    defined := defined + 1;
    Declare(table, defined);  // class ActiveShellCommandJob < ActiveJob
    defined := defined + 1;
    Declare(table, defined);  // class ExecutedJob < Job
    defined := defined + 1;
    assert defined == |LoadOrder|;
    LoadOrderWhole();
  }

  /** The load order's classes, written out. */
  lemma LoadedClasses()
    ensures Classes(LoadOrder) == [ClassOf(Job), ClassOf(ActiveJob), ClassOf(ActiveCodeJob),
                                   ClassOf(ActiveRubyScriptJob), ClassOf(ActiveRakeTaskJob),
                                   ClassOf(ActiveShellCommandJob), ClassOf(ExecutedJob)]
  {
  }

  /** Once `job.rb` is loaded, the registry lists all seven classes in file
      order, so parents before children. */
  lemma LoadedList(table: Table)
    requires table.Valid() && table.list == Classes(LoadOrder)
    ensures table.Each() == [ClassOf(Job), ClassOf(ActiveJob), ClassOf(ActiveCodeJob),
                             ClassOf(ActiveRubyScriptJob), ClassOf(ActiveRakeTaskJob),
                             ClassOf(ActiveShellCommandJob), ClassOf(ExecutedJob)]
  {
    LoadedClasses();
  }

  /** Once `job.rb` is loaded, `Table` has one accessor per class
      (`Table.job`, `Table.active_job`, `Table.executed_job`, ...), each
      answering its class, and no other. */
  lemma LoadedAccessors(table: Table)
    requires table.Valid() && table.accessors == AccessorsOf(LoadOrder)
    ensures forall k :: table.Accessor(SelectorOf(k)) == Some(ClassOf(k))
    ensures forall selector :: table.Accessor(selector).Some? ==> exists k :: selector == SelectorOf(k)
  {
    AccessorsOfSpec(LoadOrder);
    forall k ensures table.Accessor(SelectorOf(k)) == Some(ClassOf(k)) {
      LoadOrderIsComplete(k);
    }
  }
}
