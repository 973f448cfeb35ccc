/**
 The kernel's side of the driver: open files and the calls on them. Any sequence of calls on the
 driver's objects behaves as the run of the device model with the same operations.
 */
module FileOperations {
  import opened Bytes
  import opened DeviceModel
  import opened Runs
  import opened AesdChar

  class Kernel {
    const dev: AesdDev
    var files: seq<File>

    ghost predicate Valid()
      reads this, dev, dev.buffer, dev.buffer.entry, dev.heap
    {
      && dev.Valid()
      && (forall i, j :: 0 <= i < j < |files| ==> files[i] != files[j])
    }

    /** The model state that the objects stand for. */
    ghost predicate Shows(s: Sys)
      requires Valid()
      reads this, files, dev, dev.buffer, dev.buffer.entry, dev.heap, dev.heap.live, dev.heap.zeroSize
    {
      && s.dev == dev.View()
      && |s.cursors| == |files|
      && forall i :: 0 <= i < |files| ==> s.cursors[i] == files[i].fPos
    }

    constructor ()
      ensures Valid() && Shows(INITIAL)
      ensures fresh(dev) && fresh(dev.buffer) && fresh(dev.buffer.entry) && fresh(dev.heap)
      ensures dev.heap.live == {} && dev.heap.allocations == {} && files == []
    {
      dev := new AesdDev.Init();
      files := [];
    }

    /** A new file, positioned at the start. */
    method Open(ghost s: Sys) returns (fd: nat)
      requires Valid() && Shows(s)
      modifies this`files
      ensures Valid() && Shows(Step(s, DeviceModel.Open).0) && fd == |s.cursors|
      ensures |files| == |old(files)| + 1 && files[..fd] == old(files) && fresh(files[fd])
    {
      var f := new File();
      fd := |files|;
      files := files + [f];
    }

    method CallRead(fd: nat, count: nat, ghost s: Sys) returns (out: Out)
      requires Valid() && Shows(s) && fd < |files|
      modifies files[fd]
      ensures Valid() && Shows(Step(s, DeviceModel.Read(fd, count)).0) && out == Step(s, DeviceModel.Read(fd, count)).1
    {
      var ret, data := dev.Read(files[fd], count);
      out := Out(ret, data);
    }

    method CallWrite(fd: nat, data: seq<byte>, ghost s: Sys) returns (out: Out)
      requires Valid() && Shows(s) && fd < |files|
      modifies dev, dev.buffer, dev.buffer.entry, dev.heap, dev.heap.live
      ensures Valid() && Shows(Step(s, DeviceModel.Write(fd, data)).0) && out == Step(s, DeviceModel.Write(fd, data)).1
      ensures fresh(dev.heap.live - old(dev.heap.live)) && old(dev.heap.allocations) <= dev.heap.allocations
    {
      var ret := dev.Write(data);
      out := Out(ret, []);
    }

    method CallLlseek(fd: nat, offset: int, whence: int, ghost s: Sys) returns (out: Out)
      requires Valid() && Shows(s) && fd < |files|
      modifies files[fd]
      ensures var r := Step(s, DeviceModel.Llseek(fd, offset, whence)); Valid() && Shows(r.0) && out == r.1
    {
      var ret := dev.Llseek(files[fd], offset, whence);
      out := Out(ret, []);
    }

    method CallIoctl(fd: nat, cmd: nat, c: nat, o: nat, ghost s: Sys) returns (out: Out)
      requires Valid() && Shows(s) && fd < |files|
      modifies files[fd]
      ensures var r := Step(s, DeviceModel.Ioctl(fd, cmd, c, o)); Valid() && Shows(r.0) && out == r.1
    {
      var ret := dev.Ioctl(files[fd], cmd, c, o);
      out := Out(ret, []);
    }

    /** One call, on any file. */
    method Call(op: Op, ghost s: Sys) returns (out: Out)
      requires Valid() && Shows(s)
      modifies this`files, (set f | f in files), dev, dev.buffer, dev.buffer.entry, dev.heap, dev.heap.live
      ensures Valid() && Shows(Step(s, op).0) && out == Step(s, op).1
      ensures fresh(dev.heap.live - old(dev.heap.live)) && old(dev.heap.allocations) <= dev.heap.allocations
      ensures forall f :: f in files ==> f in old(files) || fresh(f)
    {
      if op.Open? {
        var fd := Open(s);
        return Out(fd, []);
      }
      if op.fd >= |files| {
        return Out(EBADF, []);
      }
      match op
      case Read(fd, count) => out := CallRead(fd, count, s);
      case Write(fd, data) => out := CallWrite(fd, data, s);
      case Llseek(fd, offset, whence) => out := CallLlseek(fd, offset, whence, s);
      case Ioctl(fd, cmd, c, o) => out := CallIoctl(fd, cmd, c, o, s);
    }

    /** Any calls in any order. */
    method Run(ops: seq<Op>, ghost s: Sys) returns (outs: seq<Out>)
      requires Valid() && Shows(s)
      modifies this`files, (set f | f in files), dev, dev.buffer, dev.buffer.entry, dev.heap, dev.heap.live
      ensures Valid() && Shows(Exec(s, ops)) && outs == Outs(s, ops)
      ensures fresh(dev.heap.live - old(dev.heap.live)) && old(dev.heap.allocations) <= dev.heap.allocations
      ensures forall f :: f in files ==> f in old(files) || fresh(f)
    {
      outs := [];
      for k := 0 to |ops|
        invariant Valid() && Shows(Exec(s, ops[..k])) && outs == Outs(s, ops[..k])
        invariant fresh(dev.heap.live - old(dev.heap.live)) && old(dev.heap.allocations) <= dev.heap.allocations
        invariant forall f :: f in files ==> f in old(files) || fresh(f)
      {
        ghost var t := Exec(s, ops[..k]);
        RunNext(s, ops, k);
        var out := Call(ops[k], t);
        outs := outs + [out];
      }
      assert ops[..|ops|] == ops;
    }
  }

  lemma RunNext(s: Sys, ops: seq<Op>, k: nat)
    requires k < |ops|
    ensures var (t, out) := Step(Exec(s, ops[..k]), ops[k]);
            Exec(s, ops[..k + 1]) == t && Outs(s, ops[..k + 1]) == Outs(s, ops[..k]) + [out]
  {
    assert ops[..k + 1] == ops[..k] + [ops[k]];
    RunSnoc(s, ops[..k], ops[k]);
  }

  /** From loading the module to unloading it: whatever was called in between, every block is freed exactly once. */
  method Lifetime(ops: seq<Op>) returns (kernel: Kernel, outs: seq<Out>)
    ensures outs == Outs(INITIAL, ops)
    ensures kernel.dev.heap.live == {} && kernel.dev.heap.frees == multiset(kernel.dev.heap.allocations)
  {
    kernel := new Kernel();
    outs := kernel.Run(ops, INITIAL);
    kernel.dev.Cleanup();
  }
}
