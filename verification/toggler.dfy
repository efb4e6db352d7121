/**
 * The plugin object of index.jsx (class CSSToggler) as far as its own state goes: the
 * list of injection ids it registers, and the calls it makes into its snippet manager.
 * The snippet store and manager are not part of this model: the store is seen only
 * through the set of ids `getSnippet` finds, and each `updateSnippet` call is recorded.
 */
module Toggler {
  import opened Wrappers
  import opened Fence
  import Sync

  /**
   * The part of a MESSAGE_UPDATE event's message the handler reads. An update that
   * changes only other parts of a message (its embeds, say) carries no `content`.
   */
  datatype Message = Message(id: string, content: Option<string>)

  /** One `snippetManager.updateSnippet(id, content)` call. */
  datatype Update = Update(id: string, content: string)

  class CssToggler {
    /** `this.injections`: the ids passed to `inject`, in order. */
    var injections: seq<string>
    /** The `updateSnippet` calls made so far, in order. */
    var updates: seq<Update>

    constructor ()
      ensures injections == [] && updates == []
    {
      injections := [];
      updates := [];
    }

    /** `inject(id, ...)`: registers the patch with the injector and remembers its id. */
    method Inject(id: string)
      modifies this`injections
      ensures injections == old(injections) + [id]
    {
      injections := injections + [id];
    }

    /**
     * The MESSAGE_UPDATE handler. `stored` is the set of message ids for which the
     * snippet store holds a snippet. An unknown id is ignored. For a known id without
     * `content`, `message.content.matchAll` throws a TypeError (`threw`) before any call
     * is made. A known id with content gets exactly one `updateSnippet` call, with the
     * extracted content ("" when nothing matches).
     */
    method OnMessageUpdate(stored: set<string>, message: Message) returns (threw: bool)
      modifies this`updates
      ensures threw <==> message.id in stored && message.content.None?
      ensures message.id !in stored || threw ==> updates == old(updates)
      ensures message.id in stored && message.content.Some? ==>
        updates == old(updates) + [Update(message.id, Sync.Joined(Captures(message.content.value)))]
      ensures message.id in stored && message.content.Some? && Captures(message.content.value) == [] ==>
        updates == old(updates) + [Update(message.id, "")]
    {
      if message.id !in stored {
        return false;
      }
      if message.content.None? {
        return true;
      }
      var content := Sync.AccumulateContent(Captures(message.content.value));
      updates := updates + [Update(message.id, content)];
      threw := false;
    }
  }
}
