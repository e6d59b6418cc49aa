/**
 * `BetterBJ::Table`, the root of every persisted class, and the registry
 * it keeps of its subclasses.  Each class that inherits from a table, at
 * any depth, passes through the `inherited` hook, which appends it to
 * `Table.list`, removes repetitions from that list in place and defines a
 * class-level accessor on `Table` named after the class.
 */
module Tables {
  import opened Wrappers
  import opened Sequences
  import opened Naming

  /** A Ruby class object: `id` is its identity, `name` what `Class#name`
      answers (`nil` for an anonymous class). */
  datatype TableClass = TableClass(id: nat, name: Option<string>)

  /** `BetterBJ::Table` itself. */
  const TableRoot := TableClass(0, Some("BetterBJ::Table"))

  /** `BetterBJ.table`: the module-level handle on the registry's class. */
  function TableHandle(): (r: TableClass)
    ensures r.name == Some("BetterBJ::Table")
  {
    TableRoot
  }

  /** How the hook ends: normally, with the parent hook's exception
      (re-raised once the `ensure` clause has run), or with the
      `NoMethodError` that the `ensure` clause itself raises when the class
      name yields no accessor name (an anonymous class, `nil[...]`). */
  datatype HookOutcome = Returned | ParentHookRaised | NoMethodError

  /** `(Table.list << table).uniq!` on a list without repetitions. */
  function ListAfter(list: seq<TableClass>, table: TableClass): (r: seq<TableClass>)
    requires NoDuplicates(list)
    ensures NoDuplicates(r)
    ensures r == Uniq(list + [table])
    ensures table in r && forall c :: c in r <==> c in list || c == table
    ensures |list| <= |r| <= |list| + 1 && r[..|list|] == list
  {
    UniqAppend(list, table);
    if table in list then list else list + [table]
  }

  /** The accessors after the hook's `def` for `table`, when its name gives one. */
  function AccessorsAfter(accessors: map<string, TableClass>, table: TableClass): (r: map<string, TableClass>)
    ensures table.name.Some? && AccessorName(table.name.value).Some? ==>
              r == accessors[AccessorName(table.name.value).value := table]
    ensures table.name.None? || AccessorName(table.name.value).None? ==> r == accessors
  {
    match table.name
    case None => accessors
    case Some(name) =>
      match AccessorName(name)
      case None => accessors
      case Some(selector) => accessors[selector := table]
  }

  /** The registry's invariant: no class is listed twice, and every
      accessor answers a listed class. */
  ghost predicate Registered(list: seq<TableClass>, accessors: map<string, TableClass>) {
    && NoDuplicates(list)
    && forall selector :: selector in accessors ==> accessors[selector] in list
  }

  /** Beyond the invariant, every accessor is the one its class's name gives. */
  ghost predicate Consistent(list: seq<TableClass>, accessors: map<string, TableClass>) {
    && Registered(list, accessors)
    && forall selector :: selector in accessors ==>
         && accessors[selector].name.Some?
         && AccessorName(accessors[selector].name.value) == Some(selector)
  }

  /** The hook keeps the registry's invariant. */
  lemma HookKeepsRegistered(list: seq<TableClass>, accessors: map<string, TableClass>, table: TableClass)
    requires Registered(list, accessors)
    ensures Registered(ListAfter(list, table), AccessorsAfter(accessors, table))
  {
  }

  /** The hook keeps every accessor named after its class. */
  lemma HookKeepsConsistent(list: seq<TableClass>, accessors: map<string, TableClass>, table: TableClass)
    requires Consistent(list, accessors)
    ensures Consistent(ListAfter(list, table), AccessorsAfter(accessors, table))
  {
  }

  /** Running the hook a second time for the same class changes nothing:
      `uniq!` drops the repeated entry, and the accessor is redefined to
      answer the same class. */
  lemma HookIdempotent(list: seq<TableClass>, accessors: map<string, TableClass>, table: TableClass)
    requires NoDuplicates(list)
    ensures ListAfter(ListAfter(list, table), table) == ListAfter(list, table)
    ensures AccessorsAfter(AccessorsAfter(accessors, table), table) == AccessorsAfter(accessors, table)
  {
    var once := ListAfter(list, table);
    UniqAppend(once, table);
    assert table in once;
    if table.name.Some? && AccessorName(table.name.value).Some? {
      var selector := AccessorName(table.name.value).value;
      var defined := accessors[selector := table];
      assert defined[selector := table] == defined;
    }
  }

  /** The class-level state of `BetterBJ::Table`. */
  class Table {
    /** `@list`: every table class registered so far, in registration order. */
    var list: seq<TableClass>
    /** The singleton methods the hook has defined: accessor name to class. */
    var accessors: map<string, TableClass>

    ghost predicate Valid()
      reads this
    {
      Registered(list, accessors)
    }

    /** `@list ||= [ ]`: the registry starts empty. */
    constructor ()
      ensures Valid()
      ensures list == [] && accessors == map[]
    {
      list := [];
      accessors := map[];
    }

    /** `Table.list`. */
    function List(): (r: seq<TableClass>)
      reads this
      requires Valid()
      ensures NoDuplicates(r)
    {
      list
    }

    /** `Table.send(selector)`: the class an accessor names, if one is defined. */
    function Accessor(selector: string): (r: Option<TableClass>)
      reads this
      requires Valid()
      ensures r.Some? ==> r.value in list
      ensures r.None? <==> selector !in accessors
    {
      if selector in accessors then Some(accessors[selector]) else None
    }

    /** The classes `Table.each` yields, in the order it yields them. */
    function Each(): (r: seq<TableClass>)
      reads this
      requires Valid()
      ensures |r| == |list| && forall i :: 0 <= i < |r| ==> r[i] == list[i]
    {
      list
    }

    /** The classes `Table.reverse_each` yields, in the order it yields them. */
    function ReverseEach(): (r: seq<TableClass>)
      reads this
      requires Valid()
      ensures |r| == |list| && forall i :: 0 <= i < |r| ==> r[i] == list[|list| - 1 - i]
    {
      ReverseLength(list);
      forall i | 0 <= i < |list| ensures Reverse(list)[i] == list[|list| - 1 - i] {
        ReverseAt(list, i);
      }
      Reverse(list)
    }

    /** `reverse_each` visits exactly what `each` visits, backwards. */
    lemma ReverseEachUndoesEach()
      requires Valid()
      ensures Reverse(ReverseEach()) == Each()
      ensures multiset(ReverseEach()) == multiset(Each())
    {
      ReverseInvolutive(list);
      assert multiset(ReverseEach()) == multiset(Each()) by {
        var r := ReverseEach();
        assert r == Reverse(list);
        ReversePreservesMultiset(list);
      }
    }

    /** `Listed#inherited(table)`.  The parent hook (`super`) runs first;
        whether it raises is a parameter.  Because the registration sits in
        an `ensure` clause it happens either way. */
    method Inherited(table: TableClass, parentRaises: bool) returns (outcome: HookOutcome)
      requires Valid()
      modifies this
      ensures Valid()
      ensures list == ListAfter(old(list), table)
      ensures accessors == AccessorsAfter(old(accessors), table)
      ensures outcome == if table.name.None? || AccessorName(table.name.value).None? then NoMethodError
                         else if parentRaises then ParentHookRaised
                         else Returned
    {
      list := Uniq(list + [table]);
      HookKeepsRegistered(old(list), old(accessors), table);
      assert list == ListAfter(old(list), table);
      if table.name.None? {
        return NoMethodError;
      }
      match AccessorName(table.name.value)
      case None =>
        outcome := NoMethodError;
      case Some(selector) =>
        accessors := accessors[selector := table];
        outcome := if parentRaises then ParentHookRaised else Returned;
    }

    /** `class child < parent`: Ruby calls `parent.inherited(child)`.  That
        call reaches the registry's hook exactly when `parent` descends from
        `Table`, whose singleton class `extend Listed` gave the hook: the
        hook is then found once, through `parent`'s singleton-class chain.
        Every descendant of `Table` is registered when it is defined, so
        "descends from `Table`" is "`Table` itself or a registered class".
        For any other parent, only that parent's own hook runs, which
        raises or not as `parentRaises` says.  `child` is a class object
        Ruby has just created, so it is not yet registered. */
    method DefineSubclass(child: TableClass, parent: TableClass, parentRaises: bool) returns (outcome: HookOutcome)
      requires Valid()
      requires child != TableRoot && child !in list
      modifies this
      ensures Valid()
      ensures parent == TableRoot || parent in old(list) ==>
                && list == old(list) + [child]
                && accessors == AccessorsAfter(old(accessors), child)
                && outcome == if child.name.None? || AccessorName(child.name.value).None? then NoMethodError
                              else if parentRaises then ParentHookRaised
                              else Returned
      ensures parent != TableRoot && parent !in old(list) ==>
                && list == old(list) && accessors == old(accessors)
                && outcome == if parentRaises then ParentHookRaised else Returned
      ensures child in list <==> parent == TableRoot || parent in old(list)
    {
      if parent == TableRoot || parent in list {
        outcome := Inherited(child, parentRaises);
      } else {
        outcome := if parentRaises then ParentHookRaised else Returned;
      }
    }
  }
}
