/** Which pages as_setup_mpu prefers (kernel/memory.c): the order of a new MPU list
    and the pages that get a region for certain. */
module MpuPriority {
  import opened FpageChain
  import opened Fpages
  import opened Mpu

  // ----- The order of a new list -----

  /** x may stand before y: it holds the program counter, or neither does and x is
      always mapped, or neither is either. */
  predicate MayPrecede(x: Fpage, y: Fpage, pc: nat) {
    || AddrInFpage(pc, x)
    || (!AddrInFpage(pc, y) && x.attr.always)
    || (!AddrInFpage(pc, y) && !y.attr.always)
  }

  /** Both hold the program counter, or both are always mapped without holding it,
      or both are neither. */
  predicate Alike(x: Fpage, y: Fpage, pc: nat) {
    (AddrInFpage(pc, x) <==> AddrInFpage(pc, y)) && (AddrInFpage(pc, x) || x.attr.always == y.attr.always)
  }

  /** x comes before y in the space. */
  predicate Before(nodes: seq<Fpage>, x: Fpage, y: Fpage) {
    exists m, n :: 0 <= m < n < |nodes| && nodes[m] == x && nodes[n] == y
  }

  lemma {:induction false} OfPriorityInOrder(nodes: seq<Fpage>, pc: nat, k: nat, i: nat, j: nat)
    requires i < j < |OfPriority(nodes, pc, k)|
    ensures var s := OfPriority(nodes, pc, k); Before(nodes, s[i], s[j])
  {
    var head, fp := nodes[..|nodes| - 1], nodes[|nodes| - 1];
    var s, h := OfPriority(nodes, pc, k), OfPriority(head, pc, k);
    OfPrioritySound(head, pc, k);
    if j < |h| {
      OfPriorityInOrder(head, pc, k, i, j);
      var m, n :| 0 <= m < n < |head| && head[m] == h[i] && head[n] == h[j];
      assert nodes[m] == s[i] && nodes[n] == s[j];
    } else {
      assert h[i] in head;
      var m :| 0 <= m < |head| && head[m] == h[i];
      assert nodes[m] == s[i] && nodes[|nodes| - 1] == s[j];
    }
  }

  /** In the new list each page may precede all that follow it, and pages alike keep
      the order of the space. */
  lemma MpuOrderRanks(nodes: seq<Fpage>, pc: nat, i: nat, j: nat)
    requires i < j < |MpuOrder(nodes, pc)|
    ensures var list := MpuOrder(nodes, pc);
            && MayPrecede(list[i], list[j], pc)
            && (Alike(list[i], list[j], pc) ==> Before(nodes, list[i], list[j]))
  {
    var a, b, c := OfPriority(nodes, pc, 0), OfPriority(nodes, pc, 1), OfPriority(nodes, pc, 2);
    OfPrioritySound(nodes, pc, 0);
    OfPrioritySound(nodes, pc, 1);
    OfPrioritySound(nodes, pc, 2);
    hide OfPriority, Before, AddrInFpage;
    var list := MpuOrder(nodes, pc);
    assert list == a + b + c;
    if j < |a| {
      OfPriorityInOrder(nodes, pc, 0, i, j);
    } else if |a| <= i && j < |a| + |b| {
      OfPriorityInOrder(nodes, pc, 1, i - |a|, j - |a|);
    } else if |a| + |b| <= i {
      OfPriorityInOrder(nodes, pc, 2, i - |a| - |b|, j - |a| - |b|);
    }
  }

  // ----- The pages behind the stack -----

  /** The pages of the list that are not stack pages. */
  function Outside(list: seq<Fpage>, stack: seq<Fpage>): seq<Fpage> {
    if list == [] then []
    else (if list[0] in stack then [] else [list[0]]) + Outside(list[1..], stack)
  }

  /** The fifo regions take a prefix of them, as long as there is room. */
  lemma {:induction false} FifoIsPrefix(list: seq<Fpage>, stack: seq<Fpage>, room: nat)
    ensures var all := Outside(list, stack);
            FifoPages(list, stack, room) == if |all| <= room then all else all[..room]
  {
    if list != [] && room > 0 {
      var rest := Outside(list[1..], stack);
      if list[0] in stack {
        FifoIsPrefix(list[1..], stack, room);
        assert Outside(list, stack) == rest;
      } else {
        FifoIsPrefix(list[1..], stack, room - 1);
        assert |rest| >= room ==> ([list[0]] + rest)[..room] == [list[0]] + rest[..room - 1];
      }
    }
  }

  lemma {:induction false} OutsideConcat(a: seq<Fpage>, b: seq<Fpage>, stack: seq<Fpage>)
    ensures Outside(a + b, stack) == Outside(a, stack) + Outside(b, stack)
  {
    if a == [] {
      assert a + b == b;
    } else {
      assert (a + b)[1..] == a[1..] + b;
      OutsideConcat(a[1..], b, stack);
    }
  }

  lemma {:induction false} OutsideMembers(list: seq<Fpage>, stack: seq<Fpage>, n: Fpage)
    ensures n in Outside(list, stack) <==> n in list && n !in stack
  {
    if list != [] {
      OutsideMembers(list[1..], stack, n);
    }
  }

  lemma {:induction false} OutsideDistinct(list: seq<Fpage>, stack: seq<Fpage>)
    requires Distinct(list)
    ensures Distinct(Outside(list, stack))
  {
    if list != [] {
      assert Distinct(list[1..]);
      OutsideDistinct(list[1..], stack);
      OutsideMembers(list[1..], stack, list[0]);
      FreshIsDistinct(if list[0] in stack then [] else [list[0]], Outside(list[1..], stack));
    }
  }

  lemma {:induction false} DistinctFits(s: seq<Fpage>, pages: set<Fpage>)
    requires Distinct(s) && forall i {:trigger s[i]} :: 0 <= i < |s| ==> s[i] in pages
    ensures |s| <= |pages|
  {
    if s != [] {
      var rest := pages - {s[0]};
      assert forall i {:trigger s[1..][i]} :: 0 <= i < |s[1..]| ==> s[1..][i] == s[i + 1];
      DistinctFits(s[1..], rest);
      assert pages == rest + {s[0]};
    }
  }

  // ----- The pages that must be mapped -----

  /** The pages outside the stack that hold the program counter or are always mapped. */
  ghost function MustMap(nodes: seq<Fpage>, pc: nat, stack: seq<Fpage>): set<Fpage> {
    set n | n in nodes && n !in stack && (AddrInFpage(pc, n) || n.attr.always)
  }

  /** A new list gives each of them a region when there are no more than free regions. */
  lemma MustMapProgrammed(nodes: seq<Fpage>, pc: nat, stack: seq<Fpage>, room: nat)
    requires Distinct(nodes) && |MustMap(nodes, pc, stack)| <= room
    ensures forall n :: n in MustMap(nodes, pc, stack) ==> n in FifoPages(MpuOrder(nodes, pc), stack, room)
  {
    var must, list := MustMap(nodes, pc, stack), MpuOrder(nodes, pc);
    var front, others := OfPriority(nodes, pc, 0) + OfPriority(nodes, pc, 1), OfPriority(nodes, pc, 2);
    FrontIsDistinct(nodes, pc);
    FrontMembers(nodes, pc);
    hide OfPriority, AddrInFpage;
    OutsideDistinct(front, stack);
    var s := Outside(front, stack);
    forall i {:trigger s[i]} | 0 <= i < |s| ensures s[i] in must {
      OutsideMembers(front, stack, s[i]);
    }
    DistinctFits(s, must);
    OutsideConcat(front, others, stack);
    FifoIsPrefix(list, stack, room);
    var fifo := FifoPages(list, stack, room);
    forall n | n in must ensures n in fifo {
      OutsideMembers(front, stack, n);
      var k :| 0 <= k < |s| && s[k] == n;
      assert fifo[k] == s[k];
    }
  }

  lemma FrontIsDistinct(nodes: seq<Fpage>, pc: nat)
    requires Distinct(nodes)
    ensures Distinct(OfPriority(nodes, pc, 0) + OfPriority(nodes, pc, 1))
  {
    OfPrioritySound(nodes, pc, 0);
    OfPrioritySound(nodes, pc, 1);
    OfPriorityDistinct(nodes, pc, 0);
    OfPriorityDistinct(nodes, pc, 1);
    FreshIsDistinct(OfPriority(nodes, pc, 0), OfPriority(nodes, pc, 1));
  }

  lemma FrontMembers(nodes: seq<Fpage>, pc: nat)
    ensures var front := OfPriority(nodes, pc, 0) + OfPriority(nodes, pc, 1);
            forall n: Fpage :: n in front <==> n in nodes && (AddrInFpage(pc, n) || n.attr.always)
  {
    OfPrioritySound(nodes, pc, 0);
    OfPrioritySound(nodes, pc, 1);
    var a, b := OfPriority(nodes, pc, 0), OfPriority(nodes, pc, 1);
    forall n | n in nodes && (AddrInFpage(pc, n) || n.attr.always) ensures n in a + b {
      OfPriorityHas(nodes, pc, n);
    }
    hide OfPriority;
    forall n | n in a + b ensures n in nodes && (AddrInFpage(pc, n) || n.attr.always) {
      assert n in a || n in b;
    }
  }

  // ----- The stack pages -----

  /** The stack pages follow one another: the first holds the start of the stack, each
      further one the end of the page before, below the end of the stack. */
  lemma {:induction false} StackPagesChain(nodes: seq<Fpage>, start: nat, end: nat, room: nat, i: nat)
    requires i < |StackPages(nodes, start, end, room)|
    ensures var s := StackPages(nodes, start, end, room);
            var at := if i == 0 then start else FpageEnd(s[i - 1]);
            at < end && AddrInFpage(at, s[i])
  {
    hide AddrInFpage, FpageEnd;
    var s := StackPages(nodes, start, end, room);
    if AddrInFpage(start, nodes[0]) {
      var rest := StackPages(nodes[1..], FpageEnd(nodes[0]), end, room - 1);
      assert s == [nodes[0]] + rest;
      if i > 0 {
        StackPagesChain(nodes[1..], FpageEnd(nodes[0]), end, room - 1, i - 1);
        assert s[i] == rest[i - 1] && (i > 1 ==> s[i - 1] == rest[i - 2]);
      }
    } else {
      StackPagesChain(nodes[1..], start, end, room, i);
    }
  }
}
