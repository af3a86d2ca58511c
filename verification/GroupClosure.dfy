/** The tags a repeating group brings along: the depth-first collection with a shared visited set
    (`collect_group_members` in `truefix-dict/src/parser.rs`) and the unguarded recursion behind `is_header`
    (`truefix-dict/src/model.rs`). */
module GroupClosure {
  import opened FieldMaps
  import opened Dictionary
  import opened Graphs

  type Groups = map<Tag, GroupDef>

  /** From a count tag to the members of its group. */
  function MemberGraph(groups: Groups): (g: Graph<Tag>) {
    map c | c in groups :: groups[c].members
  }

  function Universe(groups: Groups): (u: set<Tag>) {
    set c, m | c in groups && m in groups[c].members :: m
  }

  /** The tags reached from the seeds by one or more steps from a count tag to a member. */
  ghost function Closure(groups: Groups, seeds: set<Tag>): (s: set<Tag>) {
    set x | x in Universe(groups) && exists s :: s in seeds && Reaches(MemberGraph(groups), s, x)
  }

  ghost predicate Covers(groups: Groups, out: set<Tag>, c: Tag) {
    c in groups ==> forall m :: m in groups[c].members ==> m in out
  }

  /** Adds the members of `tag`'s group, and of the groups among them, to the tags already collected. It
      ends on every group graph, circular ones included. */
  method CollectGroupMembers(groups: Groups, tag: Tag, out: set<Tag>) returns (out': set<Tag>)
    ensures out <= out' && Covers(groups, out', tag)
    ensures forall x :: x in out' && x !in out ==> Reaches(MemberGraph(groups), tag, x) && Covers(groups, out', x)
    decreases Universe(groups) - out
  {
    out' := out;
    if tag in groups {
      var ms := groups[tag].members;
      for i := 0 to |ms|
        invariant out <= out'
        invariant forall j :: 0 <= j < i ==> ms[j] in out'
        invariant forall x :: x in out' && x !in out ==> Reaches(MemberGraph(groups), tag, x) && Covers(groups, out', x)
      {
        var m := ms[i];
        if m !in out' {
          EdgeReaches(MemberGraph(groups), tag, m);
          ghost var before := out';
          out' := out' + {m};
          if m in groups {
            assert m in Universe(groups);
            out' := CollectGroupMembers(groups, m, out');
            forall x | x in out' && x !in before && x != m ensures Reaches(MemberGraph(groups), tag, x) {
              ReachesTransitive(MemberGraph(groups), tag, m, x);
            }
          }
        }
      }
    }
  }

  lemma ReachedInUniverse(groups: Groups, s: Tag, x: Tag)
    requires Reaches(MemberGraph(groups), s, x)
    ensures x in Universe(groups)
  {
    var p :| |p| > 1 && PathFrom(MemberGraph(groups), p, s, x);
    assert Edge(MemberGraph(groups), p[|p| - 2], p[|p| - 1]);
  }

  /** A set that covers its own elements holds everything reached from what it covers. */
  lemma {:induction false} CoveredPath(groups: Groups, out: set<Tag>, p: seq<Tag>, i: nat)
    requires Path(MemberGraph(groups), p) && 0 < i < |p|
    requires Covers(groups, out, p[0]) && forall x :: x in out ==> Covers(groups, out, x)
    ensures p[i] in out
  {
    assert Edge(MemberGraph(groups), p[i - 1], p[i]);
    if i > 1 {
      CoveredPath(groups, out, p, i - 1);
    }
  }

  /** All the members a list of tags brings along: exactly the reachable ones. */
  method CollectAll(groups: Groups, seeds: seq<Tag>) returns (out: set<Tag>)
    ensures out == Closure(groups, set s | s in seeds)
  {
    out := {};
    for i := 0 to |seeds|
      invariant forall j :: 0 <= j < i ==> Covers(groups, out, seeds[j])
      invariant forall x :: x in out ==>
                  Covers(groups, out, x) && exists s :: s in seeds && Reaches(MemberGraph(groups), s, x)
    {
      ghost var before := out;
      out := CollectGroupMembers(groups, seeds[i], out);
      forall x | x in out
        ensures exists s :: s in seeds && Reaches(MemberGraph(groups), s, x)
      {
        if x !in before { assert seeds[i] in seeds && Reaches(MemberGraph(groups), seeds[i], x); }
      }
    }
    CollectedIsClosure(groups, seeds, out);
  }

  lemma CollectedIsClosure(groups: Groups, seeds: seq<Tag>, out: set<Tag>)
    requires forall s :: s in seeds ==> Covers(groups, out, s)
    requires forall x :: x in out ==>
               Covers(groups, out, x) && exists s :: s in seeds && Reaches(MemberGraph(groups), s, x)
    ensures out == Closure(groups, set s | s in seeds)
  {
    var all := Closure(groups, set s | s in seeds);
    forall x | x in out ensures x in all {
      var s :| s in seeds && Reaches(MemberGraph(groups), s, x);
      ReachedInUniverse(groups, s, x);
    }
    forall x | x in all ensures x in out {
      var s :| s in seeds && Reaches(MemberGraph(groups), s, x);
      var p :| |p| > 1 && PathFrom(MemberGraph(groups), p, s, x);
      CoveredPath(groups, out, p, |p| - 1);
    }
  }

  // ----- the recursion without a visited set

  /** Whether `tag` is a member of the group counted by `count`, directly or further down. Without a visited
      set the recursion is only sure to end when no group contains itself; `path` is the chain of groups
      entered so far. */
  predicate ContainsTransitively(groups: Groups, count: Tag, tag: Tag, ghost path: set<Tag>)
    requires Acyclic(MemberGraph(groups)) && path <= groups.Keys
    requires forall c :: c in path ==> Reaches(MemberGraph(groups), c, count)
    decreases groups.Keys - path
  {
    && count in groups
    && (tag in groups[count].members
        || exists m :: m in groups[count].members
             && (Extended(groups, count, m, path); ContainsTransitively(groups, m, tag, path + {count})))
  }

  lemma Extended(groups: Groups, count: Tag, m: Tag, path: set<Tag>)
    requires Acyclic(MemberGraph(groups)) && count in groups && m in groups[count].members
    requires forall c :: c in path ==> Reaches(MemberGraph(groups), c, count)
    ensures count !in path
    ensures forall c :: c in path + {count} ==> Reaches(MemberGraph(groups), c, m)
  {
    EdgeReaches(MemberGraph(groups), count, m);
    forall c | c in path ensures Reaches(MemberGraph(groups), c, m) {
      ReachesTransitive(MemberGraph(groups), c, count, m);
    }
  }

  lemma {:induction false} ContainsIsReaches(groups: Groups, count: Tag, tag: Tag, path: set<Tag>)
    requires Acyclic(MemberGraph(groups)) && path <= groups.Keys
    requires forall c :: c in path ==> Reaches(MemberGraph(groups), c, count)
    ensures ContainsTransitively(groups, count, tag, path) <==> Reaches(MemberGraph(groups), count, tag)
    decreases groups.Keys - path
  {
    var g := MemberGraph(groups);
    if count in groups {
      forall m | m in groups[count].members
        ensures count !in path && forall c :: c in path + {count} ==> Reaches(g, c, m)
        ensures ContainsTransitively(groups, m, tag, path + {count}) <==> Reaches(g, m, tag)
      {
        Extended(groups, count, m, path);
        ContainsIsReaches(groups, m, tag, path + {count});
      }
      if ContainsTransitively(groups, count, tag, path) {
        if tag in groups[count].members {
          EdgeReaches(g, count, tag);
        } else {
          var m :| m in groups[count].members && ContainsTransitively(groups, m, tag, path + {count});
          EdgeReaches(g, count, m);
          ReachesTransitive(g, count, m, tag);
        }
      }
      if Reaches(g, count, tag) {
        var m := ReachesFirst(g, count, tag);
      }
    } else if Reaches(g, count, tag) {
      var m := ReachesFirst(g, count, tag);
    }
  }

  predicate IsHeader(d: Dict, tag: Tag)
    requires Acyclic(MemberGraph(d.groups))
  {
    tag in d.header || exists h :: h in d.header && ContainsTransitively(d.groups, h, tag, {})
  }

  /** Where no group contains itself, `is_header` admits the header tags and exactly the members that
      the visited-set collection gathers from them. */
  lemma IsHeaderIsClosure(d: Dict, tag: Tag)
    requires Acyclic(MemberGraph(d.groups))
    ensures IsHeader(d, tag) <==> tag in d.header || tag in Closure(d.groups, d.header)
  {
    forall h | h in d.header
      ensures ContainsTransitively(d.groups, h, tag, {}) <==> Reaches(MemberGraph(d.groups), h, tag)
    {
      ContainsIsReaches(d.groups, h, tag, {});
    }
    if exists h :: h in d.header && Reaches(MemberGraph(d.groups), h, tag) {
      var h :| h in d.header && Reaches(MemberGraph(d.groups), h, tag);
      ReachedInUniverse(d.groups, h, tag);
    }
  }
}
