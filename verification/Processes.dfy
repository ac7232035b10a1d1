/** The frames of processes from elf_exec to SYS_EXIT or task_kill. */
module Processes {
  import opened Bytes
  import opened Collections
  import opened Frames
  import opened PageTables
  import opened Paging
  import opened ProcessFrames
  import opened ProcessWorld

  /** Where page n of a program lies. */
  lemma UserPlace(n: nat)
    requires n < USER_PAGES
    ensures (0x80_0000 + 4096 * n) / 0x40_0000 == USER_PDE && (0x80_0000 + 4096 * n) / 4096 == USER_PAGE + n
  {}

  class ProcessTable {
    const spaces: AddressSpaces
    /** task_t.page_dir and kernel_stack_base by the frame of the task_t. */
    var tasks: map<nat, Resources>
    /** The frames of the kernel, and the processes by the frame of their task_t. */
    ghost var kernel: set<nat>
    ghost var procs: map<nat, Proc>

    ghost predicate Valid()
      reads this, spaces, spaces.frames, spaces.frames.bitmap
    {
      spaces.Valid() && World(spaces.mem, spaces.frames.used, spaces.kernelDir, kernel, procs, tasks)
    }

    /** Before the first task: everything in use is the kernel's. */
    constructor (spaces: AddressSpaces)
      requires spaces.Valid() && Sane(spaces.mem, spaces.frames.used, spaces.kernelDir) && spaces.kernelDir != 0
      ensures Valid() && this.spaces == spaces && tasks == map[] && procs == map[] && kernel == spaces.frames.used
    {
      this.spaces := spaces;
      tasks := map[];
      kernel := spaces.frames.used;
      procs := map[];
    }

    /** The inner loop of free_task_resources, and the free of the table. */
    method FreeTable(table: nat)
      requires spaces.Valid()
      modifies spaces.frames`used, spaces.frames.bitmap
      ensures spaces.Valid()
      ensures spaces.frames.used == old(spaces.frames.used) - PagesOf(spaces.mem, table, ENTRIES) - ({table} - {0})
    {
      var j := 0;
      while j < ENTRIES
        invariant 0 <= j <= ENTRIES && spaces.Valid()
        invariant spaces.frames.used == old(spaces.frames.used) - PagesOf(spaces.mem, table, j)
      {
        var e := Entry(spaces.mem, table, j);
        if Present(e) { spaces.frames.FreeFrame(e / 4096 * 4096); }
        j := j + 1;
      }
      spaces.frames.FreeFrame(table * 4096);
    }

    /** The outer loop, over a directory that is not the kernel's. */
    method FreeDir(dir: nat)
      requires spaces.Valid()
      modifies spaces.frames`used, spaces.frames.bitmap
      ensures spaces.Valid()
      ensures spaces.frames.used ==
        old(spaces.frames.used) - Reclaimed(spaces.mem, spaces.kernelDir, dir, ENTRIES) - ({dir} - {0})
    {
      var i := 0;
      while i < ENTRIES
        invariant 0 <= i <= ENTRIES && spaces.Valid()
        invariant spaces.frames.used == old(spaces.frames.used) - Reclaimed(spaces.mem, spaces.kernelDir, dir, i)
      {
        var e := Entry(spaces.mem, dir, i);
        if e != Entry(spaces.mem, spaces.kernelDir, i) && Present(e) {
          FreeTable(FrameOf(e));
        }
        i := i + 1;
      }
      spaces.frames.FreeFrame(dir * 4096);
    }

    /** Mapping the n-th user page. */
    method MapUserPage(dir: nat, n: nat, phys: u32) returns (r: int)
      requires spaces.Valid() && Sane(spaces.mem, spaces.frames.used, dir) && n < USER_PAGES
      modifies spaces`mem, spaces.frames`used, spaces.frames.bitmap
      ensures spaces.Valid() && Sane(spaces.mem, spaces.frames.used, dir)
      ensures SameDirBut(old(spaces.mem), spaces.mem, dir, USER_PDE)
      ensures r != 0 ==> spaces.mem == old(spaces.mem) && spaces.frames.used == old(spaces.frames.used)
      ensures r == 0 ==> var pde := Entry(spaces.mem, dir, USER_PDE);
        ChangedAt(old(spaces.mem), spaces.mem, dir, USER_PAGE + n, Mapped(phys / 4096, Writable(pde), Open(pde)))
      ensures r == 0 ==> OnlyTwo(old(spaces.mem), spaces.mem, dir, FrameOf(Entry(spaces.mem, dir, USER_PDE)))
      ensures r == 0 && Present(Entry(old(spaces.mem), dir, USER_PDE)) ==>
        spaces.frames.used == old(spaces.frames.used) && SameDir(old(spaces.mem), spaces.mem, dir)
      ensures r == 0 && !Present(Entry(old(spaces.mem), dir, USER_PDE)) ==>
        Grown(old(spaces.frames.used), spaces.frames.used, spaces.mem, dir, USER_PDE, USER_FLAGS)
    {
      hide Sane, ChangedAt, Entry, DirEntry, OnlyTwo, SameDirBut, Grown, Apart, SameMap, Present, FrameOf, Writable,
        Open;
      ghost var was, used := spaces.mem, spaces.frames.used;
      var virt := 0x80_0000 + 4096 * n;
      UserPlace(n);
      r := spaces.MapPage(dir, virt, phys, USER_FLAGS);
      if r == 0 && !Present(Entry(was, dir, USER_PDE)) {
        GrownOpen(used, spaces.frames.used, spaces.mem, dir);
      }
    }

    /** One turn of the mapping loop of elf_exec. */
    method MapOne(dir: nat, n: nat, ghost m0: Memory, ghost used0: set<nat>, ghost table: nat, ghost pages: seq<nat>)
      returns (ok: bool, ghost made: nat, ghost f: nat)
      requires spaces.Valid() && n == |pages| < USER_PAGES && 0 in used0
      requires Mapping(m0, used0, spaces.mem, spaces.frames.used, spaces.kernelDir, dir, table, pages)
      modifies spaces`mem, spaces.frames`used, spaces.frames.bitmap
      ensures spaces.Valid()
      ensures ok ==>
        f != 0 && Mapping(m0, used0, spaces.mem, spaces.frames.used, spaces.kernelDir, dir, made, pages + [f])
      ensures !ok ==> Untouched(m0, spaces.mem, used0) && old(spaces.frames.used) <= spaces.frames.used
    {
      ghost var m, used := spaces.mem, spaces.frames.used;
      made, f := 0, 0;
      var phys := spaces.frames.AllocFrame();
      if phys == 0 { return false, made, f; }
      f := phys / FRAME_SIZE;
      SaneMore(m, used, dir, f);
      hide Sane, UserMap, ChangedAt, Untouched, Entry, DirEntry, OnlyTwo, SameDirBut, SameDir, Mapping, Grown;
      var r := MapUserPage(dir, n, phys);
      if r != 0 { return false, made, f; }
      made := MappingNext(m0, used0, m, used, spaces.kernelDir, dir, table, pages, f, spaces.mem, spaces.frames.used);
      ok := true;
    }

    /** elf_exec from page_dir_create to the end of the mapping loop; 0 when frames run out. */
    method BuildSpace() returns (dir: nat, ghost table: nat, ghost pages: seq<nat>)
      requires spaces.Valid() && Sane(spaces.mem, spaces.frames.used, spaces.kernelDir)
      modifies spaces`mem, spaces.frames`used, spaces.frames.bitmap
      ensures spaces.Valid()
      ensures dir == 0 ==>
        Untouched(old(spaces.mem), spaces.mem, old(spaces.frames.used)) && old(spaces.frames.used) <= spaces.frames.used
      ensures dir != 0 ==>
        Mapping(old(spaces.mem), old(spaces.frames.used), spaces.mem, spaces.frames.used, spaces.kernelDir,
                dir, table, pages)
      ensures dir != 0 ==> |pages| == USER_PAGES && 0 !in pages && dir < |spaces.mem|
    {
      ghost var m0, used0 := spaces.mem, spaces.frames.used;
      table, pages := 0, [];
      assert Untouched(m0, m0, used0);
      dir := spaces.DirCreate();
      if dir == 0 { return; }
      MappingStart(m0, used0, spaces.mem, spaces.kernelDir, dir);
      spaces.mem := Store(spaces.mem, dir, USER_PDE, 0);
      hide Mapping, Sane, Untouched, SameMap, SameBut;
      var n := 0;
      while n < USER_PAGES
        invariant 0 <= n == |pages| <= USER_PAGES && spaces.Valid() && 0 in used0 && 0 !in pages && dir < |spaces.mem|
        invariant Mapping(m0, used0, spaces.mem, spaces.frames.used, spaces.kernelDir, dir, table, pages)
      {
        MappingFacts(m0, used0, spaces.mem, spaces.frames.used, spaces.kernelDir, dir, table, pages);
        var ok, made, f := MapOne(dir, n, m0, used0, table, pages);
        if !ok {
          StoreUntouched(m0, spaces.mem, used0, dir, USER_PDE, 0);
          spaces.mem := Store(spaces.mem, dir, USER_PDE, 0);
          spaces.frames.FreeFrame(dir * 4096);
          return 0, table, pages;
        }
        table, pages := made, pages + [f];
        n := n + 1;
      }
    }

    lemma MappingFacts(m0: Memory, used0: set<nat>, m: Memory, used: set<nat>, k: nat, dir: nat, table: nat,
                       pages: seq<nat>)
      requires Mapping(m0, used0, m, used, k, dir, table, pages)
      ensures dir !in used0 && used0 <= used
    {}

    lemma StoreUntouched(m0: Memory, m: Memory, kept: set<nat>, f: nat, i: nat, e: u32)
      requires Untouched(m0, m, kept) && Formed(m) && f < |m| && i < ENTRIES && f !in kept
      ensures Untouched(m0, Store(m, f, i, e), kept)
    {}

    /** free_task_resources on the fields of a task_t; the same loops in task_kill leave page_dir
        at 0 instead of the kernel's directory. */
    method FreeResources(r: Resources, after: nat) returns (left: Resources)
      requires spaces.Valid()
      modifies spaces.frames`used, spaces.frames.bitmap
      ensures spaces.Valid() && spaces.frames.used == old(spaces.frames.used) - Freed(spaces.mem, spaces.kernelDir, r)
      ensures left == Resources(if r.dir != 0 && r.dir != spaces.kernelDir then after else r.dir, 0)
    {
      left := r;
      hide Reclaimed;
      if left.dir != 0 && left.dir != spaces.kernelDir {
        FreeDir(left.dir);
        left := left.(dir := after);
      }
      if left.stack != 0 {
        spaces.frames.FreeFrames(left.stack * 4096, STACK_FRAMES);
        left := left.(stack := 0);
      }
    }

    /** SYS_EXIT and task_kill: the process gives back exactly what it owns, once. */
    method Release(t: nat, after: nat)
      requires Valid() && t in tasks && (after == 0 || after == spaces.kernelDir)
      modifies this, spaces.frames`used, spaces.frames.bitmap
      ensures Valid() && kernel == old(kernel) && procs == old(procs) - {t}
      ensures t in old(procs) ==> spaces.frames.used == old(spaces.frames.used) - Own(old(procs[t]))
      ensures t !in old(procs) ==> spaces.frames.used == old(spaces.frames.used) && tasks == old(tasks)
      ensures tasks ==
        var dir := old(tasks[t].dir);
        old(tasks)[t := Resources(if dir != 0 && dir != spaces.kernelDir then after else dir, 0)]
    {
      hide World, Own, Freed;
      ghost var k := spaces.kernelDir;
      ghost var left0 := Resources(if tasks[t].dir != 0 && tasks[t].dir != k then after else tasks[t].dir, 0);
      if t in procs {
        WorldReleased(spaces.mem, spaces.frames.used, k, kernel, procs, tasks, t, left0);
      } else {
        WorldEnded(spaces.mem, spaces.frames.used, k, kernel, procs, tasks, t);
      }
      ghost var used0, tasks0, procs0 := spaces.frames.used, tasks, procs;
      var left := FreeResources(tasks[t], after);
      tasks := tasks[t := left];
      procs := procs - {t};
      assert left == left0;
      if t !in procs0 {
        assert used0 - {} == used0;
        assert spaces.frames.used == used0 && tasks == tasks0 && procs == procs0;
      }
    }

    /** Frames in use now and not at m0, used0 have no owner. */
    ghost method Lose(m0: Memory, used0: set<nat>)
      requires spaces.Valid() && World(m0, used0, spaces.kernelDir, kernel, procs, tasks)
      requires Untouched(m0, spaces.mem, used0) && used0 <= spaces.frames.used
      modifies this`kernel
      ensures Valid()
    {
      WorldGrows(m0, used0, spaces.kernelDir, kernel, procs, tasks, spaces.mem, spaces.frames.used);
      kernel := kernel + (spaces.frames.used - used0);
    }

    /** alloc_task and alloc_frames for a stack: both, or neither. */
    method TaskAndStack() returns (t: nat, stack: nat)
      requires spaces.Valid()
      modifies spaces.frames`used, spaces.frames.bitmap
      ensures spaces.Valid() && (t == 0 <==> stack == 0)
      ensures t == 0 ==> spaces.frames.used == old(spaces.frames.used)
      ensures t != 0 ==> t !in old(spaces.frames.used) && AllFree(old(spaces.frames.used) + {t}, stack, STACK_FRAMES)
      ensures t != 0 ==> spaces.frames.used == old(spaces.frames.used) + {t} + RunSet(stack, STACK_FRAMES)
    {
      ghost var used0 := spaces.frames.used;
      var task := spaces.frames.AllocFrame();
      if task == 0 { return 0, 0; }
      var base := spaces.frames.AllocFrames(STACK_FRAMES);
      if base == 0 {
        spaces.frames.FreeFrame(task);
        assert spaces.frames.used == used0;
        return 0, 0;
      }
      t, stack := task / FRAME_SIZE, base / FRAME_SIZE;
    }

    /** task_create: a kernel task owns only its stack. */
    method TaskCreate() returns (t: nat, ghost p: Proc)
      requires Valid()
      modifies this, spaces.frames`used, spaces.frames.bitmap
      ensures Valid()
      ensures t == 0 ==> procs == old(procs) && tasks == old(tasks) && spaces.frames.used == old(spaces.frames.used)
      ensures t != 0 ==> p.Kern? && t !in old(spaces.frames.used) && Own(p) !! old(spaces.frames.used) && t !in Own(p)
      ensures t != 0 ==> spaces.frames.used == old(spaces.frames.used) + {t} + Own(p) && kernel == old(kernel) + {t}
      ensures t != 0 ==> procs == old(procs)[t := p] && tasks == old(tasks)[t := Resources(spaces.kernelDir, p.stack)]
    {
      hide World, Own, Untouched, Matches, AllFree, RunSet;
      ghost var used0 := spaces.frames.used;
      var stack;
      t, stack := TaskAndStack();
      p := Kern(stack);
      if t == 0 { return; }
      KernOwns(spaces.mem, spaces.kernelDir, used0, t, stack);
      WorldGains(spaces.mem, used0, spaces.kernelDir, kernel, procs, tasks, spaces.mem, t, p,
                 Resources(spaces.kernelDir, stack));
      tasks := tasks[t := Resources(spaces.kernelDir, stack)];
      procs := procs[t := p];
      kernel := kernel + {t};
    }

    /** The end of elf_exec, for a directory that is complete; 0 when frames run out. */
    method Attach(dir: nat, ghost table: nat, ghost pages: seq<nat>, ghost m0: Memory, ghost used0: set<nat>,
                  ghost m1: Memory)
      returns (t: nat, ghost p: Proc)
      requires spaces.Valid() && World(m0, used0, spaces.kernelDir, kernel, procs, tasks)
      requires Untouched(m0, spaces.mem, used0)
      requires Mapping(m0, used0, m1, spaces.frames.used, spaces.kernelDir, dir, table, pages)
      requires pages != [] && 0 !in pages
      requires Built(spaces.mem, spaces.kernelDir, dir, table, pages)
      modifies this, spaces.frames`used, spaces.frames.bitmap
      ensures Valid()
      ensures t == 0 ==> procs == old(procs) && tasks == old(tasks) && used0 <= spaces.frames.used
      ensures t != 0 ==>
        p.User? && t !in used0 && Own(p) !! used0 && t !in Own(p) && spaces.frames.used == used0 + {t} + Own(p)
      ensures t != 0 ==>
        && procs == old(procs)[t := p] && tasks == old(tasks)[t := Resources(dir, p.stack)] && p.dir == dir
        && kernel == old(kernel) + {t}
      ensures t != 0 ==> p.table == table && p.pages == pages
    {
      hide World, Built, Untouched, Own, Mapping;
      MappingFacts(m0, used0, m1, spaces.frames.used, spaces.kernelDir, dir, table, pages);
      ghost var used1 := spaces.frames.used;
      var stack;
      t, stack := TaskAndStack();
      p := User(dir, table, pages, stack);
      if t == 0 {
        Lose(m0, used0);
        return;
      }
      ExecOwns(m0, used0, m1, used1, spaces.kernelDir, dir, table, pages, t, stack, spaces.frames.used);
      WorldGains(m0, used0, spaces.kernelDir, kernel, procs, tasks, spaces.mem, t, p, Resources(dir, stack));
      tasks := tasks[t := Resources(dir, stack)];
      procs := procs[t := p];
      kernel := kernel + {t};
    }

    /** The success path of elf_exec from page_dir_create on, and its returns when frames run out;
        the result is the frame of the task_t. */
    method Exec() returns (t: nat, ghost p: Proc)
      requires Valid()
      modifies this, spaces`mem, spaces.frames`used, spaces.frames.bitmap
      ensures Valid() && Untouched(old(spaces.mem), spaces.mem, old(spaces.frames.used))
      ensures t == 0 ==> procs == old(procs) && tasks == old(tasks) && old(spaces.frames.used) <= spaces.frames.used
      ensures t != 0 ==> p.User? && t !in old(spaces.frames.used) && Own(p) !! old(spaces.frames.used) && t !in Own(p)
      ensures t != 0 ==> spaces.frames.used == old(spaces.frames.used) + {t} + Own(p) && kernel == old(kernel) + {t}
      ensures t != 0 ==> procs == old(procs)[t := p] && tasks == old(tasks)[t := Resources(p.dir, p.stack)]
      ensures t != 0 ==> Built(spaces.mem, spaces.kernelDir, p.dir, p.table, p.pages)
      ensures t != 0 ==> |p.pages| == 512 && SeqSet(p.pages) + RunSet(p.stack, 4) + {p.dir, p.table} == Own(p)
      ensures forall d: nat :: Sane(old(spaces.mem), old(spaces.frames.used), d) ==>
        SameMap(old(spaces.mem), spaces.mem, d)
    {
      ghost var m0, used0 := spaces.mem, spaces.frames.used;
      hide Built, Own, Mapping, AllSettled, NoneShared, AllOwned, Ended, TaskFrames;
      var dir, table, pages := BuildSpace();
      if dir == 0 {
        Lose(m0, used0);
        t, p := 0, Kern(0);
      } else {
        ghost var m1 := spaces.mem;
        Sealed(m0, used0, m1, spaces.frames.used, spaces.kernelDir, dir, table, pages);
        spaces.mem := Store(Store(spaces.mem, dir, 0, 0), dir, 1, 0);
        t, p := Attach(dir, table, pages, m0, used0, m1);
      }
      hide Sane, SameMap, Untouched;
      forall d: nat | Sane(m0, used0, d)
        ensures SameMap(m0, spaces.mem, d)
      { UntouchedMap(m0, spaces.mem, used0, used0, d); }
    }

    /** A process from exec over exit to a kill of the same task: the frames in use are those of
        before and the task_t, and the kill frees nothing. */
    method WholeLife() returns (t: nat)
      requires Valid()
      modifies this, spaces`mem, spaces.frames`used, spaces.frames.bitmap
      ensures Valid()
      ensures t != 0 ==> spaces.frames.used == old(spaces.frames.used) + {t} && procs == old(procs)
      ensures Untouched(old(spaces.mem), spaces.mem, old(spaces.frames.used))
    {
      hide World, Own, Untouched, Sane, SameMap, Built, SeqSet, RunSet, FrameTable.Valid, AddressSpaces.Valid;
      ghost var used0 := spaces.frames.used;
      ghost var procs0 := procs;
      ghost var p;
      FreshTask(used0);
      t, p := Exec();
      if t == 0 { return; }
      Release(t, spaces.kernelDir);
      assert spaces.frames.used == used0 + {t} && procs == procs0;
      Release(t, 0);
      assert procs0 - {t} == procs0;
    }

    lemma FreshTask(used0: set<nat>)
      requires Valid() && used0 == spaces.frames.used
      ensures forall t :: t !in used0 ==> t !in procs
    {}
  }
}
