/**
 * The accessor resolver: how `Mapper.FromLambdaExpression` turns an accessor
 * lambda such as `p => p.Address.City` into a Member (a terminal member, the
 * root type and the dotted path of the hops in between).
 */
module Accessor {
  import opened Wrappers
  import opened TypeModel

  /** A C# member name: never empty, and never containing a dot. */
  type Identifier = s: string | s != [] && '.' !in s witness "m"

  /** What the walk reads off a MemberInfo or MethodInfo: its name and its ReflectedType. */
  datatype MemberInfo = MemberInfo(name: Identifier, reflectedType: TypeId)

  /**
   * The node shapes of System.Linq.Expressions the walk tells apart. A
   * receiver is None for a static member or method; a call's arguments are
   * never looked at and are not represented.
   */
  datatype Expr =
    | Convert(operand: Expr)
    | Lambda(body: Expr)
    | MemberAccess(member: MemberInfo, expression: Option<Expr>)
    | Call(methodInfo: MemberInfo, receiver: Option<Expr>)
    | Parameter(paramType: TypeId)
    | Other

  /** The immutable `Member` record: the terminal member, the root type and the path. */
  datatype Member = Member(memberInfo: MemberInfo, rootType: TypeId, path: string)

  function Size(e: Expr): nat {
    match e
    case Convert(o) => 1 + Size(o)
    case Lambda(b) => 1 + Size(b)
    case MemberAccess(_, Some(r)) => 1 + Size(r)
    case Call(_, Some(r)) => 1 + Size(r)
    case _ => 1
  }

  function OptSize(cur: Option<Expr>): nat {
    match cur
    case None => 0
    case Some(e) => Size(e)
  }

  // ---------------------------------------------------------------------
  // The walk, step by step, as the loop of FromLambdaExpression performs it
  // ---------------------------------------------------------------------

  /** The loop's locals `path`, `memberInfo` and `rootType` (null is None). */
  datatype WalkState = WalkState(path: string, memberInfo: Option<MemberInfo>, rootType: Option<TypeId>)

  const Start := WalkState("", None, None)

  /** The name in front of the path, with a dot between them unless the path is still empty. */
  function Prepend(name: string, path: string): string {
    name + (if path == "" then "" else ".") + path
  }

  /**
   * A member-access or call node: the first one seen becomes the terminal
   * member, each later one has its name put in front of the path; either way
   * the root type becomes the member's ReflectedType.
   */
  function Visit(s: WalkState, m: MemberInfo): WalkState {
    if s.memberInfo.None? then WalkState(s.path, Some(m), Some(m.reflectedType))
    else WalkState(Prepend(m.name, s.path), s.memberInfo, Some(m.reflectedType))
  }

  /**
   * The state in which the loop ends when it starts at `cur` in state `s`,
   * or the NullReferenceException it throws on reaching a null receiver.
   */
  function Walk(cur: Option<Expr>, s: WalkState): Result<WalkState>
    decreases OptSize(cur)
  {
    match cur
    case None => Err(NullReference)
    case Some(e) =>
      match e
      case Convert(o) => Walk(Some(o), s)
      case Lambda(b) => Walk(Some(b), s)
      case MemberAccess(m, r) => Walk(r, Visit(s, m))
      case Call(m, r) => Walk(r, Visit(s, m))
      case Parameter(t) => Ok(WalkState(s.path, s.memberInfo, Some(t)))
      case Other => Ok(s)
  }

  /** The final test: a Member only when both a member and a root type were found. */
  function Finish(s: WalkState): Option<Member> {
    if s.memberInfo.Some? && s.rootType.Some? then
      Some(Member(s.memberInfo.value, s.rootType.value, s.path))
    else None
  }

  /** What FromLambdaExpression returns (Ok(None) is its `return null`), or throws. */
  function Resolve(e: Expr): Result<Option<Member>> {
    match Walk(Some(e), Start)
    case Err(x) => Err(x)
    case Ok(s) => Ok(Finish(s))
  }

  // ---------------------------------------------------------------------
  // An independent description of the same result
  // ---------------------------------------------------------------------

  /** The member and call nodes the walk passes, outermost first. */
  function Hops(e: Expr): seq<MemberInfo> {
    match e
    case Convert(o) => Hops(o)
    case Lambda(b) => Hops(b)
    case MemberAccess(m, None) => [m]
    case MemberAccess(m, Some(r)) => [m] + Hops(r)
    case Call(m, None) => [m]
    case Call(m, Some(r)) => [m] + Hops(r)
    case _ => []
  }

  /** Where the walk stops: at a parameter, at some other node shape, or at a null receiver. */
  datatype Stop = AtParameter(paramType: TypeId) | AtOther | AtNull

  function StopOf(e: Expr): Stop {
    match e
    case Convert(o) => StopOf(o)
    case Lambda(b) => StopOf(b)
    case MemberAccess(_, None) => AtNull
    case MemberAccess(_, Some(r)) => StopOf(r)
    case Call(_, None) => AtNull
    case Call(_, Some(r)) => StopOf(r)
    case Parameter(t) => AtParameter(t)
    case Other => AtOther
  }

  function Names(ms: seq<MemberInfo>): (names: seq<Identifier>)
    ensures |names| == |ms|
  {
    seq(|ms|, k requires 0 <= k < |ms| => ms[k].name)
  }

  function Reverse<T>(s: seq<T>): seq<T>
    decreases |s|
  {
    if s == [] then [] else [s[|s| - 1]] + Reverse(s[..|s| - 1])
  }

  /** The names joined by single dots, in the order given. */
  function JoinDots(xs: seq<string>): string
    decreases |xs|
  {
    if |xs| == 0 then ""
    else if |xs| == 1 then xs[0]
    else xs[0] + "." + JoinDots(xs[1..])
  }

  /** The root a resolved accessor reports: the parameter's type if the walk got there. */
  function RootOf(e: Expr): TypeId
    requires Hops(e) != []
  {
    match StopOf(e)
    case AtParameter(t) => t
    case _ => Hops(e)[|Hops(e)| - 1].reflectedType
  }

  // ---------------------------------------------------------------------
  // Lemmas
  // ---------------------------------------------------------------------

  /** The state after visiting `ms` in order, starting from `s`. */
  function VisitAll(s: WalkState, ms: seq<MemberInfo>): WalkState
    decreases |ms|
  {
    if ms == [] then s else VisitAll(Visit(s, ms[0]), ms[1..])
  }

  /** The state once the walk reaches its stop node: a parameter sets the root type. */
  function FinishAt(s: WalkState, stop: Stop): WalkState {
    match stop
    case AtParameter(t) => WalkState(s.path, s.memberInfo, Some(t))
    case _ => s
  }

  /** The walk visits exactly Hops(e), in order, and ends where StopOf(e) says. */
  lemma {:induction false} WalkVisitsHops(e: Expr, s: WalkState)
    ensures Walk(Some(e), s) ==
              if StopOf(e) == AtNull then Err(NullReference)
              else Ok(FinishAt(VisitAll(s, Hops(e)), StopOf(e)))
    decreases Size(e)
  {
    match e
    case Convert(o) => WalkVisitsHops(o, s);
    case Lambda(b) => WalkVisitsHops(b, s);
    case MemberAccess(m, None) =>
    case MemberAccess(m, Some(r)) =>
      WalkVisitsHops(r, Visit(s, m));
      assert ([m] + Hops(r))[1..] == Hops(r);
    case Call(m, None) =>
    case Call(m, Some(r)) =>
      WalkVisitsHops(r, Visit(s, m));
      assert ([m] + Hops(r))[1..] == Hops(r);
    case Parameter(t) =>
    case Other =>
  }

  lemma ReverseSnoc<T>(s: seq<T>, x: T)
    ensures Reverse(s + [x]) == [x] + Reverse(s)
  {
  }

  lemma {:induction false} ReverseCons<T>(x: T, s: seq<T>)
    ensures Reverse([x] + s) == Reverse(s) + [x]
    decreases |s|
  {
    if s != [] {
      var init := s[..|s| - 1];
      assert ([x] + s)[..|s|] == [x] + init;
      ReverseCons(x, init);
    }
  }

  lemma {:induction false} ReverseReverse<T>(s: seq<T>)
    ensures Reverse(Reverse(s)) == s
    decreases |s|
  {
    if s != [] {
      var init := s[..|s| - 1];
      ReverseReverse(init);
      ReverseCons(s[|s| - 1], Reverse(init));
      assert init + [s[|s| - 1]] == s;
    }
  }

  lemma {:induction false} NamesReverse(ms: seq<MemberInfo>)
    ensures Names(Reverse(ms)) == Reverse(Names(ms))
    decreases |ms|
  {
    if ms != [] {
      var init := ms[..|ms| - 1];
      NamesReverse(init);
      assert Names(ms)[..|ms| - 1] == Names(init);
      assert Names([ms[|ms| - 1]] + Reverse(init)) == [ms[|ms| - 1].name] + Names(Reverse(init));
    }
  }

  /** The source's prepend step is JoinDots on a list one longer. */
  lemma PrependJoin(name: Identifier, xs: seq<Identifier>)
    ensures Prepend(name, JoinDots(xs)) == JoinDots([name] + xs)
  {
  }

  /** After the terminal member, each further hop's name goes in front of the path. */
  lemma {:induction false} VisitAfterTerminal(s: WalkState, seen: seq<MemberInfo>, ms: seq<MemberInfo>)
    requires s.memberInfo.Some?
    requires s.path == JoinDots(Reverse(Names(seen)))
    ensures VisitAll(s, ms) ==
              WalkState(JoinDots(Reverse(Names(seen + ms))), s.memberInfo,
                        if ms == [] then s.rootType else Some(ms[|ms| - 1].reflectedType))
    decreases |ms|
  {
    if ms == [] {
      assert seen + ms == seen;
    } else {
      var m := ms[0];
      PrependJoin(m.name, Reverse(Names(seen)));
      assert Names(seen + [m]) == Names(seen) + [m.name];
      ReverseSnoc(Names(seen), m.name);
      VisitAfterTerminal(Visit(s, m), seen + [m], ms[1..]);
      assert seen + [m] + ms[1..] == seen + ms;
    }
  }

  /**
   * What the resolver returns, stated without the loop: a static member
   * anywhere on the way throws; no member or call node gives null; otherwise
   * the terminal member is the outermost hop, the path joins the names of
   * the other hops in root-to-member order, and the root is the parameter's
   * type if the walk reached the parameter and the innermost hop's
   * ReflectedType if it stopped at another node shape.
   */
  lemma ResolveByHops(e: Expr)
    ensures StopOf(e) == AtNull ==> Resolve(e) == Err(NullReference)
    ensures StopOf(e) != AtNull && Hops(e) == [] ==> Resolve(e) == Ok(None)
    ensures StopOf(e) != AtNull && Hops(e) != [] ==>
              Resolve(e) == Ok(Some(Member(Hops(e)[0], RootOf(e), JoinDots(Reverse(Names(Hops(e)[1..]))))))
  {
    WalkVisitsHops(e, Start);
    var hs := Hops(e);
    if hs != [] {
      VisitAfterTerminal(Visit(Start, hs[0]), [], hs[1..]);
      assert [] + hs[1..] == hs[1..];
    }
  }

  // Turning every call into a member access, and dropping every wrapper

  function CallsAsAccesses(e: Expr): Expr {
    match e
    case Convert(o) => Convert(CallsAsAccesses(o))
    case Lambda(b) => Lambda(CallsAsAccesses(b))
    case MemberAccess(m, None) => MemberAccess(m, None)
    case MemberAccess(m, Some(r)) => MemberAccess(m, Some(CallsAsAccesses(r)))
    case Call(m, None) => MemberAccess(m, None)
    case Call(m, Some(r)) => MemberAccess(m, Some(CallsAsAccesses(r)))
    case _ => e
  }

  /** Call nodes are handled exactly like member-access nodes. */
  lemma {:induction false} CallLikeMemberAccess(e: Expr, s: WalkState)
    ensures Walk(Some(CallsAsAccesses(e)), s) == Walk(Some(e), s)
    decreases Size(e)
  {
    match e
    case Convert(o) => CallLikeMemberAccess(o, s);
    case Lambda(b) => CallLikeMemberAccess(b, s);
    case MemberAccess(m, Some(r)) => CallLikeMemberAccess(r, Visit(s, m));
    case Call(m, Some(r)) => CallLikeMemberAccess(r, Visit(s, m));
    case _ =>
  }

  lemma CallsResolveLikeAccesses(e: Expr)
    ensures Resolve(CallsAsAccesses(e)) == Resolve(e)
  {
    CallLikeMemberAccess(e, Start);
  }

  function StripWrappers(e: Expr): Expr {
    match e
    case Convert(o) => StripWrappers(o)
    case Lambda(b) => StripWrappers(b)
    case MemberAccess(m, Some(r)) => MemberAccess(m, Some(StripWrappers(r)))
    case Call(m, Some(r)) => Call(m, Some(StripWrappers(r)))
    case _ => e
  }

  /** Convert and Lambda nodes, wherever they sit, change nothing the walk computes. */
  lemma {:induction false} WrappersTransparent(e: Expr, s: WalkState)
    ensures Walk(Some(StripWrappers(e)), s) == Walk(Some(e), s)
    decreases Size(e)
  {
    match e
    case Convert(o) => WrappersTransparent(o, s);
    case Lambda(b) => WrappersTransparent(b, s);
    case MemberAccess(m, Some(r)) => WrappersTransparent(r, Visit(s, m));
    case Call(m, Some(r)) => WrappersTransparent(r, Visit(s, m));
    case _ =>
  }

  lemma WrappersDoNotChangeResolution(e: Expr)
    ensures Resolve(StripWrappers(e)) == Resolve(e)
    ensures Resolve(Convert(e)) == Resolve(e) && Resolve(Lambda(e)) == Resolve(e)
  {
    WrappersTransparent(e, Start);
  }

  // Accessor chains `p => p.h1.h2...hn`

  /** `p => p.h1.h2...hn` for a parameter `p` of type `t`, hops listed root first. */
  function Chain(t: TypeId, hops: seq<MemberInfo>): Expr
    decreases |hops|
  {
    if hops == [] then Parameter(t)
    else MemberAccess(hops[|hops| - 1], Some(Chain(t, hops[..|hops| - 1])))
  }

  lemma {:induction false} ChainHops(t: TypeId, hops: seq<MemberInfo>)
    ensures Hops(Chain(t, hops)) == Reverse(hops)
    ensures StopOf(Chain(t, hops)) == AtParameter(t)
    decreases |hops|
  {
    if hops != [] {
      ChainHops(t, hops[..|hops| - 1]);
    }
  }

  /**
   * For `p => p.h1...hn` the terminal member is the outermost hop `hn`, the
   * path is `h1...h(n-1)` joined by dots, and the root is the type of `p`.
   */
  lemma ChainedAccessor(t: TypeId, hops: seq<MemberInfo>)
    requires hops != []
    ensures Resolve(Chain(t, hops)) ==
              Ok(Some(Member(hops[|hops| - 1], t, JoinDots(Names(hops[..|hops| - 1])))))
  {
    var init := hops[..|hops| - 1];
    ChainHops(t, hops);
    ResolveByHops(Chain(t, hops));
    assert Reverse(hops)[1..] == Reverse(init);
    NamesReverse(init);
    ReverseReverse(Names(init));
  }

  /** `p => p.F`, bare or boxed by a Convert, gives path "" , member F and root the type of p. */
  lemma SingleHopAccessor(t: TypeId, f: MemberInfo)
    ensures Resolve(Lambda(MemberAccess(f, Some(Parameter(t))))) == Ok(Some(Member(f, t, "")))
    ensures Resolve(Lambda(Convert(MemberAccess(f, Some(Parameter(t)))))) == Ok(Some(Member(f, t, "")))
  {
    var x := MemberAccess(f, Some(Parameter(t)));
    assert Chain(t, [f]) == x;
    ChainedAccessor(t, [f]);
    assert Names([f][..0]) == [];
    WrappersDoNotChangeResolution(x);
    WrappersDoNotChangeResolution(Convert(x));
  }

  // Splitting a path back into its segments

  /** The pieces of `s` between dots (String.Split('.')). */
  function Split(s: string): (parts: seq<string>)
    ensures |parts| >= 1
    decreases |s|
  {
    if s == [] then [""]
    else
      var rest := Split(s[1..]);
      if s[0] == '.' then [""] + rest else [[s[0]] + rest[0]] + rest[1..]
  }

  /** The path's segments; the empty path has none. */
  function Segments(path: string): seq<string> {
    if path == "" then [] else Split(path)
  }

  lemma {:induction false} SplitWord(x: string)
    requires '.' !in x
    ensures Split(x) == [x]
    decreases |x|
  {
    if x != [] {
      SplitWord(x[1..]);
      assert [x[0]] + x[1..] == x;
    }
  }

  lemma {:induction false} SplitAtDot(x: string, y: string)
    requires '.' !in x
    ensures Split(x + "." + y) == [x] + Split(y)
    decreases |x|
  {
    if x == [] {
      assert (x + "." + y)[1..] == y;
    } else {
      assert (x + "." + y)[1..] == x[1..] + "." + y;
      SplitAtDot(x[1..], y);
      assert [x[0]] + x[1..] == x;
    }
  }

  /**
   * A path built from identifiers splits back into exactly those
   * identifiers: there is one segment per hop, no empty segment, so no
   * leading, trailing or doubled dot.
   */
  lemma {:induction false} SegmentsOfJoin(xs: seq<Identifier>)
    ensures Segments(JoinDots(xs)) == xs
    decreases |xs|
  {
    if |xs| == 1 {
      SplitWord(xs[0]);
    } else if |xs| > 1 {
      SegmentsOfJoin(xs[1..]);
      SplitAtDot(xs[0], JoinDots(xs[1..]));
      assert JoinDots(xs[1..]) != "" by {
        assert |JoinDots(xs[1..])| > 0 by {
          if |xs[1..]| > 1 {
            assert JoinDots(xs[1..]) == xs[1] + "." + JoinDots(xs[2..]);
          }
        }
      }
      assert [xs[0]] + xs[1..] == xs;
    }
  }

  /** The path of `p => p.h1...hn` has n - 1 segments: the names h1 ... h(n-1). */
  lemma ChainedPathSegments(t: TypeId, hops: seq<MemberInfo>)
    requires hops != []
    ensures Resolve(Chain(t, hops)).Ok? && Resolve(Chain(t, hops)).value.Some?
    ensures Segments(Resolve(Chain(t, hops)).value.value.path) == Names(hops[..|hops| - 1])
    ensures |Segments(Resolve(Chain(t, hops)).value.value.path)| == |hops| - 1
  {
    ChainedAccessor(t, hops);
    SegmentsOfJoin(Names(hops[..|hops| - 1]));
  }
}
