/** The document and kernel side the manager is handed. Only what the
    manager touches is modelled: the context's current kernel, and the
    kernel services that register comm targets and dispose the handles
    they returned (the transport behind them is not). */
module Environment {
  import opened Handles

  /** The document context; the manager reads its `kernel`. */
  class DocumentContext {
    var kernel: Option<Kernel>

    constructor(kernel: Option<Kernel>)
      ensures this.kernel == kernel
    {
      this.kernel := kernel;
    }
  }

  /** `kernel.registerCommTarget(...)` and `registration.dispose()`, with the
      record of every such call and the next handle serial. */
  class KernelServices {
    var log: seq<CommEvent>
    var issued: nat

    constructor()
      ensures log == [] && issued == 0
    {
      log := [];
      issued := 0;
    }

    /** Registers `target` on `kernel` and returns a fresh handle. */
    method RegisterCommTarget(kernel: Kernel, target: string) returns (r: Registration)
      modifies this
      ensures r == Registration(old(issued)) && issued == old(issued) + 1
      ensures log == old(log) + [Registered(kernel, target, r)]
    {
      r := Registration(issued);
      issued := issued + 1;
      log := log + [Registered(kernel, target, r)];
    }

    /** Disposes a registration handle. */
    method DisposeRegistration(r: Registration)
      modifies this
      ensures log == old(log) + [Disposed(r)] && issued == old(issued)
    {
      log := log + [Disposed(r)];
    }
  }
}
