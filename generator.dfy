/** The text `Mapper.GenerateSourceCode` produces for a binding table. */
module Generator {
  import opened Wrappers
  import opened Accessor
  import opened Bindings

  /** The fixed text before the first type name: the using directives and the class head. */
  const Preamble: string :=
    "\nusing System;\nusing System.Collections.Generic;\nusing System.ComponentModel;\n"
    + "using System.Linq;\nusing System.Text;\nusing System.Threading.Tasks;\nusing Mapper;\n"
    + "namespace Mapper\n{\n    public class Mapping: IMapping<"

  /** The fixed opening, naming the source type `t1` and the destination type `t2` by full name. */
  function Header(t1: string, t2: string): string {
    Preamble + t1 + "," + t2 + ">\n    {\n"
    + "        public " + t2 + " Map(" + t1 + " t1)\n        {\n"
    + "            " + t2 + " t2 = new " + t2 + "();\n"
  }

  /** The fixed closing. */
  const Footer: string := "\n            return t2;\n        }\n    }\n};"

  /** The assignment emitted for one entry: only the two terminal member names are used. */
  function Assignment(source: Member, destination: Member): string {
    "t2." + destination.memberInfo.name + " = t1." + source.memberInfo.name + ";\r\n"
  }

  /** The assignments of a table with no null destination, in table order. */
  function Assignments(bindings: seq<Binding>): string
    requires AllResolved(bindings)
    decreases |bindings|
  {
    if bindings == [] then ""
    else
      var last := bindings[|bindings| - 1];
      Assignments(bindings[..|bindings| - 1]) + Assignment(last.0, last.1.value)
  }

  /**
   * The generated program, or the NullReferenceException that reading
   * the destination member throws for an entry whose destination is null.
   */
  function SourceCode(t1: string, t2: string, bindings: seq<Binding>): Result<string> {
    if AllResolved(bindings) then Ok(Header(t1, t2) + Assignments(bindings) + Footer)
    else Err(NullReference)
  }

  /** The assignments of two tables one after the other are those of the concatenated table. */
  lemma {:induction false} AssignmentsAppend(a: seq<Binding>, b: seq<Binding>)
    requires AllResolved(a) && AllResolved(b)
    ensures AllResolved(a + b)
    ensures Assignments(a + b) == Assignments(a) + Assignments(b)
    decreases |b|
  {
    assert AllResolved(a + b) by {
      forall k | 0 <= k < |a + b| ensures (a + b)[k].1.Some? {
        if k < |a| { assert (a + b)[k] == a[k]; } else { assert (a + b)[k] == b[k - |a|]; }
      }
    }
    if b != [] {
      var init := b[..|b| - 1];
      assert AllResolved(init) by {
        forall k | 0 <= k < |init| ensures init[k].1.Some? { assert init[k] == b[k]; }
      }
      AssignmentsAppend(a, init);
      assert (a + b)[..|a + b| - 1] == a + init;
      assert (a + b)[|a + b| - 1] == b[|b| - 1];
      assert Assignments(b) == Assignments(init) + Assignment(b[|b| - 1].0, b[|b| - 1].1.value);
    } else {
      assert a + b == a;
    }
  }

  /**
   * Appending one entry to the table appends exactly its assignment line to
   * the generated program, between the old lines and the footer.
   */
  lemma AppendedBindingIsLastLine(t1: string, t2: string, bindings: seq<Binding>, src: Member, dst: Member)
    requires AllResolved(bindings)
    ensures SourceCode(t1, t2, bindings + [(src, Some(dst))]) ==
              Ok(Header(t1, t2) + Assignments(bindings) + Assignment(src, dst) + Footer)
  {
    AssignmentsAppend(bindings, [(src, Some(dst))]);
    assert [(src, Some(dst))][..0] == [];
    assert Assignments([(src, Some(dst))]) == Assignment(src, dst);
    assert Assignments(bindings + [(src, Some(dst))]) == Assignments(bindings) + Assignment(src, dst);
    var h, x, y := Header(t1, t2), Assignments(bindings), Assignment(src, dst);
    assert h + (x + y) + Footer == h + x + y + Footer;
  }

  /** The two tables pair the same terminal member names entry by entry, and have nulls at the same places. */
  ghost predicate SameNames(a: seq<Binding>, b: seq<Binding>) {
    && |a| == |b|
    && forall k | 0 <= k < |a| ::
         && a[k].0.memberInfo.name == b[k].0.memberInfo.name
         && a[k].1.Some? == b[k].1.Some?
         && (a[k].1.Some? ==> a[k].1.value.memberInfo.name == b[k].1.value.memberInfo.name)
  }

  /**
   * The assignments depend only on the terminal member names: the paths, the
   * root types and the reflected types play no part.
   */
  lemma {:induction false} OnlyNamesMatter(a: seq<Binding>, b: seq<Binding>)
    requires SameNames(a, b) && AllResolved(a)
    ensures AllResolved(b)
    ensures Assignments(a) == Assignments(b)
    decreases |a|
  {
    assert AllResolved(b) by {
      forall k | 0 <= k < |b| ensures b[k].1.Some? { assert a[k].1.Some?; }
    }
    if a != [] {
      var n := |a| - 1;
      assert SameNames(a[..n], b[..n]) by {
        forall k | 0 <= k < n
          ensures a[..n][k].0.memberInfo.name == b[..n][k].0.memberInfo.name
          ensures a[..n][k].1.Some? == b[..n][k].1.Some?
          ensures a[..n][k].1.Some? ==> a[..n][k].1.value.memberInfo.name == b[..n][k].1.value.memberInfo.name
        {
          assert a[..n][k] == a[k] && b[..n][k] == b[k];
        }
      }
      assert AllResolved(a[..n]) by {
        forall k | 0 <= k < n ensures a[..n][k].1.Some? { assert a[..n][k] == a[k]; }
      }
      OnlyNamesMatter(a[..n], b[..n]);
      assert Assignment(a[n].0, a[n].1.value) == Assignment(b[n].0, b[n].1.value);
    }
  }

  /** So the generated program, success or failure, depends on nothing but those names. */
  lemma PathNeverUsed(t1: string, t2: string, a: seq<Binding>, b: seq<Binding>)
    requires SameNames(a, b)
    ensures SourceCode(t1, t2, a) == SourceCode(t1, t2, b)
  {
    if AllResolved(a) {
      OnlyNamesMatter(a, b);
    } else {
      var k :| 0 <= k < |a| && a[k].1.None?;
      assert b[k].1.None?;
    }
  }

  /**
   * The example program's table: `s => s.FirstName` bound to `d => d.GivenName`
   * and `s => s.LastName` to `d => d.Surname`, resolved against Person
   * (type 1) and PersonDto (type 2).
   */
  function PersonTable(): seq<Binding> {
    [(Member(MemberInfo("FirstName", 1), 1, ""), Some(Member(MemberInfo("GivenName", 2), 2, ""))),
     (Member(MemberInfo("LastName", 1), 1, ""), Some(Member(MemberInfo("Surname", 2), 2, "")))]
  }

  /** For that table the program assigns GivenName from FirstName, then Surname from LastName, and nothing else. */
  lemma PersonExample()
    ensures SourceCode("MapperPrototype.Person", "MapperPrototype.PersonDto", PersonTable()) ==
              Ok(Header("MapperPrototype.Person", "MapperPrototype.PersonDto")
                 + (("t2." + "GivenName" + " = t1." + "FirstName" + ";\r\n")
                    + ("t2." + "Surname" + " = t1." + "LastName" + ";\r\n"))
                 + Footer)
  {
    var tbl := PersonTable();
    assert tbl[..1][..0] == [];
    assert AllResolved(tbl);
    assert Assignments(tbl) == ("t2." + "GivenName" + " = t1." + "FirstName" + ";\r\n")
                               + ("t2." + "Surname" + " = t1." + "LastName" + ";\r\n");
  }
}
