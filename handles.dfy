/** Opaque handles for the collaborators the widget extension talks to but
    whose implementation is not part of this model: kernels, the disposable
    handles a kernel hands back for a comm-target registration, widget
    classes exported by registered modules, phosphor widgets and the
    render-mime service. */
module Handles {

  /** JavaScript's "value or null/undefined", for fields and lookups. */
  datatype Option<+T> = None | Some(value: T)

  /** A running kernel, as far as the manager is concerned. */
  datatype Kernel = Kernel(id: nat)

  /** The `IDisposable` that `kernel.registerCommTarget` returns; serial
      numbers are handed out in increasing order, so a new one is fresh. */
  datatype Registration = Registration(serial: nat)

  /** What the manager does to the kernel side: register a comm target,
      or dispose a registration handle. */
  datatype CommEvent =
    | Registered(kernel: Kernel, target: string, reg: Registration)
    | Disposed(reg: Registration)

  /** A widget model or view class exported by a registered module. */
  datatype ClassHandle = ClassHandle(id: nat)

  /** A module's exports: class name to class. */
  type Exports = map<string, ClassHandle>

  /** A phosphor widget that some other code created. */
  datatype WidgetHandle = WidgetHandle(id: nat)

  /** The render-mime service the manager is given. */
  datatype RenderMime = RenderMime(id: nat)
}
