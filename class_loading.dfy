/** What `WidgetManager.loadClass` does once the registry lookup is done.

    As written, the two `Promise.reject(...)` calls build rejected promises
    that nobody returns or awaits: their reasons only surface as unhandled
    rejections. A missing module then fails on `mod[className]` (a
    TypeError thrown by `loadClass` itself), and a missing class resolves
    to `undefined`. */
module ClassLoading {
  import opened Handles

  /** How the call ends: a promise resolved with the class (or with
      `undefined`), or a synchronous TypeError. It never rejects. */
  datatype LoadOutcome = Resolves(cls: Option<ClassHandle>) | ThrowsTypeError

  /** The outcome, plus the reasons of the rejected promises created and
      dropped on the way. */
  datatype LoadResult = LoadResult(outcome: LoadOutcome, discarded: seq<string>)

  function ModuleNotRegistered(moduleName: string): string
  {
    "Module " + moduleName + " not registered as a widget module"
  }

  function ClassNotFound(className: string, moduleName: string): string
  {
    "Class " + className + " not found in module " + moduleName
  }

  /** `loadClass(className, moduleName)` given what the registry returned
      for `moduleName`. */
  function ResolveClass(mod: Option<Exports>, className: string, moduleName: string): (r: LoadResult)
    ensures r.outcome.ThrowsTypeError? <==> mod.None?
    ensures r.outcome == Resolves(None) <==> mod.Some? && className !in mod.value
    ensures r.outcome.Resolves? && r.outcome.cls.Some? <==> mod.Some? && className in mod.value
    ensures r.outcome.Resolves? && r.outcome.cls.Some? ==> r.outcome.cls.value == mod.value[className]
    ensures r.discarded == [] <==> r.outcome.Resolves? && r.outcome.cls.Some?
    ensures mod.None? ==> r.discarded == [ModuleNotRegistered(moduleName)]
    ensures mod.Some? && className !in mod.value ==> r.discarded == [ClassNotFound(className, moduleName)]
  {
    match mod
    case None => LoadResult(ThrowsTypeError, [ModuleNotRegistered(moduleName)])
    case Some(exports) =>
      if className in exports then LoadResult(Resolves(Some(exports[className])), [])
      else LoadResult(Resolves(None), [ClassNotFound(className, moduleName)])
  }
}
