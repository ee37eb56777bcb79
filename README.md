# JupyterLab widget extension: manager, view wrapper and renderer lifecycles

A Dafny model of the coordination logic in `widgetslabextension/src/index.ts`:
how the `WidgetManager` holds its document context, its one comm-target
registration on the `jupyter.widget` target and its module registry; how a
`BackboneViewWrapper` owns a Backbone view; and how the `WidgetRenderer`
declares its mimetype and its disposal. Kernels, registration handles,
widget classes, phosphor widgets and the render-mime service are opaque
handles (`Handles`).

Files and modules:

- `handles.dfy` (`Handles`): the opaque handles and the events the manager
  causes on the kernel side (`Registered`, `Disposed`).
- `environment.dfy` (`Environment`): the document context (its current
  kernel) and `KernelServices`, which registers comm targets, hands out
  fresh registration handles and records every registration and disposal.
- `registry.dfy` (`Registry`): the module registry (`SemVerCache`), kept
  abstract as a table from module name to version to exports.
- `class_loading.dfy` (`ClassLoading`): what `loadClass` does with the
  registry's answer.
- `manager_spec.dfy` (`ManagerSpec`): the manager's comm-target lifecycle as
  values (`Snapshot`, `NewKernel`, `Dispose`, runs of kernel changes and
  disposals) and the lemmas about it: at most one live registration, the
  old handle disposed before the new one is registered, idempotent disposal.
- `index.dfy` (`WidgetsLab`): the three classes, and the Backbone view as
  far as they touch it. The `WidgetManager` constructor, `NewKernel`,
  `OnKernelChanged` and `Dispose` are proved to move the manager exactly as
  `ManagerSpec.Attach`, `ManagerSpec.NewKernel` and `ManagerSpec.Dispose` say
  (`Snap()` reads the manager and its kernel services), and to keep
  `Valid()`, the `ManagerSpec.Inv` invariant. `Register` is tied to
  `Registry.Insert`; `DisplayView` changes only the view it is given.

## Model

| member | source | states |
|---|---|---|
| `Registry.Insert` | widgetslabextension/src/index.ts:206-208 | registering writes the exact (name, version) entry, keeps every other entry including other versions of the same name, and adds nothing else |
| `Registry.SingleVersionOffered` | widgetslabextension/src/index.ts:183 | a module registered at one version only offers that version's exports, so the `'*'` lookup returns them |
| `Registry.SemVerCache.Set` | widgetslabextension/src/index.ts:207 | the registry table after `set` is `Insert` of the old table |
| `Registry.SemVerCache.Get` | widgetslabextension/src/index.ts:183 | the `'*'` lookup finds nothing exactly when no version of the name is registered, and otherwise returns the exports of one registered version |
| `ClassLoading.ResolveClass` | widgetslabextension/src/index.ts:182-192 | a missing module ends in a TypeError from `mod[className]`, a missing class resolves to `undefined`, a present class resolves to that class; each failure path drops one rejected promise with the source's message, and no path rejects |
| `WidgetsLab.WidgetManager.LoadClass` | widgetslabextension/src/index.ts:182-192 | the call throws exactly when the module is not registered, and otherwise is `ResolveClass` applied to the exports of some registered version |
| `WidgetsLab.WidgetManager.Register` | widgetslabextension/src/index.ts:206-208 | the registry afterwards is `Insert` of the old one |
| `WidgetsLab.WidgetManager.constructor` | widgetslabextension/src/index.ts:95-113 | the manager holds the given context and render-mime, a fresh registry holding only the base widget module at the given version, and has attached to the context's kernel only if there is one; `Valid()` holds |
| `WidgetsLab.WidgetManager.OnKernelChanged` | widgetslabextension/src/index.ts:102-107 | a kernel change runs `newKernel` whatever the manager's state |
| `WidgetsLab.WidgetManager.NewKernel` | widgetslabextension/src/index.ts:115-127 | the manager and its kernel services move as `ManagerSpec.NewKernel` says, and `Valid()` is kept |
| `ManagerSpec.Attach` | widgetslabextension/src/index.ts:109-112 | the constructor's attach leaves the snapshot alone without a kernel, and with one stores a fresh handle registered on `jupyter.widget` with that kernel; the context is untouched |
| `ManagerSpec.NewKernel` | widgetslabextension/src/index.ts:115-127 | the kernel-side record only grows; its first new event disposes the stored handle, if any; without a kernel the stored handle and the registrations stay as they were; with one, a fresh handle is stored and its registration on `jupyter.widget` is the last event; the context is untouched |
| `ManagerSpec.Dispose` | widgetslabextension/src/index.ts:168-177 | afterwards the manager is disposed; a disposed manager is left as it was; otherwise exactly one event is added, the disposal of the stored handle if there is one; the stored handle itself is kept |
| `WidgetsLab.WidgetManager.IsDisposed` | widgetslabextension/src/index.ts:161-163 | the manager is disposed exactly when its context reference is null |
| `WidgetsLab.WidgetManager.DisplayView` | widgetslabextension/src/index.ts:132-135 | a view that has a `pWidget` gets that widget back and is left untouched; otherwise a fresh wrapper holding the view, subscribed to its `remove` event, is returned; it never fails |
| `WidgetsLab.WidgetManager.Dispose` | widgetslabextension/src/index.ts:168-177 | the manager moves as `ManagerSpec.Dispose` says, is disposed afterwards and keeps `Valid()` |
| `WidgetsLab.BackboneView.Remove` | widgetslabextension/src/index.ts:70-73 | the view's `remove` event runs every subscribed wrapper's listener, so each wrapper that took the view ends disposed with its view reference cleared |
| `WidgetsLab.BackboneViewWrapper.constructor` | widgetslabextension/src/index.ts:67-76 | the wrapper owns the view, is not disposed, and is appended to the view's `remove` listeners |
| `WidgetsLab.BackboneViewWrapper.OnAfterAttach` | widgetslabextension/src/index.ts:78-80 | attaching fires `displayed` on the held view, and throws when the view has been cleared |
| `WidgetsLab.BackboneViewWrapper.Dispose` | widgetslabextension/src/index.ts:82-85 | the view reference is cleared and the widget is disposed, whatever the state before, so disposing twice leaves the same state |
| `WidgetsLab.BackboneViewWrapper.OnViewRemoved` | widgetslabextension/src/index.ts:70-73 | the view's `remove` event disposes the wrapper |
| `WidgetsLab.WidgetRenderer.constructor` | widgetslabextension/src/index.ts:222-224 | the renderer holds the given manager, and `mimetypes` (the field initializer at line 274) is exactly `['application/vnd.jupyter.widget']` |
| `WidgetsLab.WidgetRenderer.IsSanitizable` | widgetslabextension/src/index.ts:229-231 | false for every mimetype |
| `WidgetsLab.WidgetRenderer.IsSafe` | widgetslabextension/src/index.ts:236-238 | false for every mimetype |
| `WidgetsLab.WidgetRenderer.IsDisposed` | widgetslabextension/src/index.ts:260-262 | the renderer is disposed exactly when its manager reference is null |
| `WidgetsLab.WidgetRenderer.Dispose` | widgetslabextension/src/index.ts:267-272 | afterwards the renderer is disposed; on a disposed renderer nothing changes |
| `ManagerSpec.NewKernelKeepsInv` | widgetslabextension/src/index.ts:115-127 | `newKernel` keeps the invariant: handles older than the next serial, and nothing live but the stored handle |
| `ManagerSpec.DisposeKeepsInv` | widgetslabextension/src/index.ts:168-177 | `dispose` keeps the same invariant |
| `ManagerSpec.AtMostOneLive` | widgetslabextension/src/index.ts:213 | under the invariant, at most one comm-target registration is live |
| `ManagerSpec.RunKeepsAtMostOneLive` | widgetslabextension/src/index.ts:115-127 | along any sequence of kernel changes and disposals the invariant holds, so the manager never has more than one live registration, and only the stored one |
| `ManagerSpec.SwitchKernel` | widgetslabextension/src/index.ts:116-122 | switching kernels stores a fresh handle registered on `jupyter.widget` with the new kernel, disposes the old handle before that registration, leaves only the new handle live, and a previously live old handle ends up disposed exactly once |
| `ManagerSpec.NewKernelWithoutKernel` | widgetslabextension/src/index.ts:116-121 | without a kernel no registration is made and nothing stays live, but `_commRegistration` still holds the disposed handle |
| `ManagerSpec.StaleHandleDisposedAgain` | widgetslabextension/src/index.ts:116-121 | after a kernel change to no kernel, the next kernel change or disposal disposes that stale handle a second time |
| `ManagerSpec.DisposeReleasesRegistration` | widgetslabextension/src/index.ts:168-177 | after `dispose` the manager is disposed, the stored handle has been disposed and nothing is live; on a disposed manager `dispose` changes nothing, so it is idempotent |
| `ManagerSpec.DisposedManagerReattaches` | widgetslabextension/src/index.ts:102-122 | a kernel change reaching a disposed manager registers a live comm target again, while the manager stays disposed |
| `ManagerSpec.DisposedStaysDisposed` | widgetslabextension/src/index.ts:161-177 | once disposed, a manager stays disposed through any later kernel changes and disposals |

## Where the code departs from its evident intent

The model follows the code in each case.

- `loadClass` evidently means to fail with "module not registered" or "class
  not found": it builds those rejections at index.ts:185 and 189. As written
  they are dropped: a missing module fails on `mod[className]` with a
  TypeError thrown synchronously, and a missing class resolves to `undefined`
  (`ClassLoading.ResolveClass`).
- In the model's reading, `newKernel` with no kernel should also clear the
  handle it disposed (index.ts:116-121). It does not, so the next kernel
  change or `dispose` disposes it again
  (`ManagerSpec.StaleHandleDisposedAgain`). A direct switch from one kernel
  to another disposes the old handle once (`ManagerSpec.SwitchKernel`).
- In the model's reading, a disposed manager should not attach to kernels
  any more. The `kernelChanged` handler (index.ts:102-107) is never
  disconnected and `newKernel` does not check `isDisposed`, so a later
  kernel change registers a comm target again
  (`ManagerSpec.DisposedManagerReattaches`).
- In the model's reading, `display_view` reuses the widget of a view it has
  seen before. It reuses only a `pWidget` the view already carries
  (index.ts:133) and never sets one, so two calls on a plain Backbone view
  give two distinct fresh wrappers (`WidgetsLab.WidgetManager.DisplayView`).

## Left out

- DOM work: the wrapper's `addClass` and `node.appendChild(view.el)`, the
  `Panel` and `addWidget` in `render`, and the CSS imports; they act on UI
  library objects.
- `WidgetRenderer.render`: its work is an asynchronous chain through the base
  manager's `get_model` and `display_model`, which are not part of this model.
- `_create_comm`, `_get_comm_info` and the `shims.services.Comm` wrapping:
  kernel transport (I/O). The kernel is only a source of fresh registration
  handles, and the comm-open callback given to `registerCommTarget` is not
  modelled.
- `validateVersion` and `handle_comm_open`: inherited from `ManagerBase`,
  which is not part of this model.
- The registry's version-range resolution (`./semvercache` is not part of
  this model); only the `'*'` lookup that `loadClass` makes is modelled.
- The `context`, `rendermime` and `displayWithOutput` accessors, which only
  return a field or the constant `true`.
- The patching of `OutputModel` and `OutputView` into the `widgets` module,
  and the `console.log` in the remove listener.
- The unused parameters: `msg` and `options` of `display_view`, `error` of
  `loadClass`.
- `WidgetsLab.WidgetManager.LoadClass`: a class name is looked up only among
  the module's own exports; JavaScript properties a module object inherits
  (such as `toString`) are not modelled.
- `WidgetsLab.WidgetManager.Dispose`: the order "dispose the registration,
  then clear the context" is the order of the method's statements; no
  intermediate state is observable in the model, since nothing a registration
  runs on disposal is modelled.
- `WidgetsLab.BackboneViewWrapper.Dispose`: phosphor's own `Widget.dispose`
  (detaching, clearing signal connections) is reduced to its disposed flag.
- `WidgetsLab.WidgetManager.Valid`: the invariant assumes the manager is the
  only client of its `KernelServices`; several managers registering on one
  kernel side are not covered by the lifecycle lemmas.
- `ManagerSpec.NewKernel`: the comm target name is `this.comm_target_name`
  (index.ts:122), inherited from `ManagerBase`, which is not part of this
  model; it is taken to be `jupyter.widget`, the target `_get_comm_info`
  queries (index.ts:150).
- `Registry.Insert`: that a second `set` on an already registered
  (name, version) overwrites it (last write wins) is an assumption about
  `./semvercache`, which is not part of this model.
- `Registry.SemVerCache.Get`: that the `'*'` range matches every registered
  version string is an assumption; a semver range match may exclude some
  versions, pre-releases being the usual case.
