/** The three classes of the widget extension: the Backbone view wrapper,
    the widget manager and the widget mime renderer. */
module WidgetsLab {
  import opened Handles
  import opened Environment
  import opened Registry
  import opened ClassLoading
  import ManagerSpec

  /** The name the base widget module is registered under. */
  const BaseModuleName: string := "jupyter-js-widgets"

  /** The one mimetype the renderer handles. */
  const WidgetMimetype: string := "application/vnd.jupyter.widget"

  /** The event sent to a wrapped view when its wrapper is attached. */
  const DisplayedEvent: string := "displayed"

  /** The event a view announces when it is removed. */
  const RemoveEvent: string := "remove"

  /** A Backbone view (foreign to the phosphor widget tree), as far as the
      wrapper and the manager touch it: an optional phosphor widget already
      standing for it, the events triggered on it, and the wrappers that
      listen for its `remove` event. */
  class BackboneView {
    var pWidget: Option<WidgetHandle>
    var triggered: seq<string>
    var removeListeners: seq<BackboneViewWrapper>

    constructor(pWidget: Option<WidgetHandle>)
      ensures this.pWidget == pWidget && triggered == [] && removeListeners == []
    {
      this.pWidget := pWidget;
      triggered := [];
      removeListeners := [];
    }

    /** `trigger('remove')`: the event is recorded and every wrapper that
        listens for it runs its listener, in subscription order, so each
        of them ends disposed with its view reference cleared. */
    method Remove()
      modifies this, set w | w in removeListeners
      ensures triggered == old(triggered) + [RemoveEvent]
      ensures pWidget == old(pWidget) && removeListeners == old(removeListeners)
      ensures forall w | w in removeListeners :: w.view == null && w.isDisposed
    {
      triggered := triggered + [RemoveEvent];
      var i := 0;
      while i < |removeListeners|
        invariant 0 <= i <= |removeListeners|
        invariant triggered == old(triggered) + [RemoveEvent]
        invariant pWidget == old(pWidget) && removeListeners == old(removeListeners)
        invariant forall k | 0 <= k < i :: removeListeners[k].view == null && removeListeners[k].isDisposed
      {
        removeListeners[i].OnViewRemoved();
        i := i + 1;
      }
    }
  }

  /** A phosphor widget that owns one Backbone view. */
  class BackboneViewWrapper {
    var view: BackboneView?
    var isDisposed: bool   // the phosphor `Widget` base's disposed flag

    /** Takes the view and listens for its `remove` event. */
    constructor(view: BackboneView)
      modifies view
      ensures this.view == view && !isDisposed
      ensures view.removeListeners == old(view.removeListeners) + [this]
      ensures view.pWidget == old(view.pWidget) && view.triggered == old(view.triggered)
    {
      this.view := view;
      isDisposed := false;
      new;
      view.removeListeners := view.removeListeners + [this];
    }

    /** Fires `displayed` on the held view. With no view held (after
        `dispose`) the `trigger` call throws a TypeError. */
    method OnAfterAttach() returns (threw: bool)
      modifies view
      ensures threw <==> view == null
      ensures view != null ==> view.triggered == old(view.triggered) + [DisplayedEvent]
      ensures view != null ==>
                view.pWidget == old(view.pWidget) && view.removeListeners == old(view.removeListeners)
    {
      if view == null {
        return true;
      }
      view.triggered := view.triggered + [DisplayedEvent];
      return false;
    }

    /** Drops the view, then disposes the widget; doing it twice leaves the
        same state. */
    method Dispose()
      modifies this
      ensures view == null && isDisposed
    {
      view := null;
      isDisposed := true;
    }

    /** The listener installed on the view's `remove` event. */
    method OnViewRemoved()
      modifies this
      ensures view == null && isDisposed
    {
      Dispose();
    }
  }

  /** What `display_view` resolves to: the phosphor widget the view already
      has, or a new wrapper around it. */
  datatype DisplayNode = Existing(widget: WidgetHandle) | Wrapped(wrapper: BackboneViewWrapper)

  class WidgetManager {
    var context: DocumentContext?
    const rendermime: RenderMime
    const registry: SemVerCache
    var commRegistration: Option<Registration>
    const services: KernelServices

    /** The manager's comm-target lifecycle state, as `ManagerSpec` sees it. */
    function Snap(): ManagerSpec.Snapshot
      reads this, services
    {
      ManagerSpec.Snapshot(context != null, commRegistration, services.log, services.issued)
    }

    ghost predicate Valid()
      reads this, services
    {
      ManagerSpec.Inv(Snap())
    }

    /** Registers the base widget module, then attaches to the context's
        kernel if it has one. The kernel services must hold no live
        registration yet. */
    constructor(context: DocumentContext, rendermime: RenderMime, services: KernelServices,
                baseVersion: string, baseExports: Exports)
      requires ManagerSpec.Inv(ManagerSpec.Snapshot(true, None, services.log, services.issued))
      modifies services
      ensures Valid() && fresh(registry)
      ensures this.context == context && this.rendermime == rendermime && this.services == services
      ensures registry.entries == map[BaseModuleName := map[baseVersion := baseExports]]
      ensures Snap() == ManagerSpec.Attach(
                ManagerSpec.Snapshot(true, None, old(services.log), old(services.issued)),
                context.kernel)
    {
      this.context := context;
      this.rendermime := rendermime;
      this.services := services;
      this.registry := new SemVerCache();
      this.commRegistration := None;
      new;
      Register(BaseModuleName, baseVersion, baseExports);
      if context.kernel.Some? {
        NewKernel(context.kernel);
      }
    }

    /** The handler connected to the context's `kernelChanged` signal. It
        does not look at whether the manager is disposed. */
    method OnKernelChanged(kernel: Option<Kernel>)
      requires Valid()
      modifies this`commRegistration, services
      ensures Valid()
      ensures Snap() == ManagerSpec.NewKernel(old(Snap()), kernel)
    {
      NewKernel(kernel);
    }

    /** Disposes the stored registration, then registers the comm target
        on `kernel` when there is one. */
    method NewKernel(kernel: Option<Kernel>)
      requires Valid()
      modifies this`commRegistration, services
      ensures Valid()
      ensures Snap() == ManagerSpec.NewKernel(old(Snap()), kernel)
    {
      ManagerSpec.NewKernelKeepsInv(Snap(), kernel);
      if commRegistration.Some? {
        services.DisposeRegistration(commRegistration.value);
      }
      if kernel.None? {
        return;
      }
      var r := services.RegisterCommTarget(kernel.value, ManagerSpec.CommTargetName);
      commRegistration := Some(r);
    }

    /** A displayable widget for `view`: the one it already has, otherwise a
        new wrapper. It never fails. */
    method DisplayView(view: BackboneView) returns (node: DisplayNode)
      modifies view
      ensures view.pWidget == old(view.pWidget) && view.triggered == old(view.triggered)
      ensures view.pWidget.Some? ==>
                node == Existing(view.pWidget.value) && view.removeListeners == old(view.removeListeners)
      ensures view.pWidget.None? ==>
                && node.Wrapped? && fresh(node.wrapper)
                && node.wrapper.view == view && !node.wrapper.isDisposed
                && view.removeListeners == old(view.removeListeners) + [node.wrapper]
    {
      if view.pWidget.Some? {
        node := Existing(view.pWidget.value);
      } else {
        var w := new BackboneViewWrapper(view);
        node := Wrapped(w);
      }
    }

    /** The manager is disposed exactly when it no longer holds a context. */
    predicate IsDisposed()
      reads this
      ensures IsDisposed() <==> context == null
    {
      context == null
    }

    /** Disposes the stored registration, then drops the context; a no-op
        on a disposed manager. */
    method Dispose()
      requires Valid()
      modifies this`context, services
      ensures Valid() && IsDisposed()
      ensures Snap() == ManagerSpec.Dispose(old(Snap()))
    {
      ManagerSpec.DisposeKeepsInv(Snap());
      if IsDisposed() {
        return;
      }
      if commRegistration.Some? {
        services.DisposeRegistration(commRegistration.value);
      }
      context := null;
    }

    /** Looks `moduleName` up with the `'*'` range and reads `className`
        from what it gets. */
    method LoadClass(className: string, moduleName: string) returns (r: LoadResult)
      ensures r.outcome.ThrowsTypeError? <==> !registry.Has(moduleName)
      ensures !registry.Has(moduleName) ==> r == ResolveClass(None, className, moduleName)
      ensures registry.Has(moduleName) ==>
                exists mod | registry.Offers(moduleName, mod) :: r == ResolveClass(Some(mod), className, moduleName)
    {
      var mod := registry.Get(moduleName);
      r := ResolveClass(mod, className, moduleName);
    }

    method Register(name: string, version: string, exports: Exports)
      modifies registry
      ensures registry.entries == Insert(old(registry.entries), name, version, exports)
    {
      registry.Set(name, version, exports);
    }
  }

  class WidgetRenderer {
    var manager: WidgetManager?
    var mimetypes: seq<string>

    constructor(widgetManager: WidgetManager)
      ensures manager == widgetManager && mimetypes == [WidgetMimetype]
    {
      manager := widgetManager;
      mimetypes := [WidgetMimetype];
    }

    /** Widget output is never sanitizable, whatever the mimetype. */
    predicate IsSanitizable(mimetype: string)
      ensures !IsSanitizable(mimetype)
    {
      false
    }

    /** Widget output is never safe without sanitizing, whatever the mimetype. */
    predicate IsSafe(mimetype: string)
      ensures !IsSafe(mimetype)
    {
      false
    }

    /** The renderer is disposed exactly when it no longer holds a manager. */
    predicate IsDisposed()
      reads this
      ensures IsDisposed() <==> manager == null
    {
      manager == null
    }

    /** Drops the manager; a no-op on a disposed renderer. */
    method Dispose()
      modifies this`manager
      ensures IsDisposed()
      ensures old(IsDisposed()) ==> unchanged(this)
    {
      if IsDisposed() {
        return;
      }
      manager := null;
    }
  }
}
