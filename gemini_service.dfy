/**
 * The per-panel chat-session registry (services/geminiService.ts): a module-level
 * map from panel id to the remote chat created for it, filled on first use.
 */
module GeminiService {

  /** The model every chat is created with. */
  const ModelName: string := "gemini-2.5-flash"

  /** A remote chat session, opaque here apart from the configuration it was created with. */
  class Session {
    const model: string
    const systemInstruction: string

    constructor (model: string, systemInstruction: string)
      ensures this.model == model && this.systemInstruction == systemInstruction
    {
      this.model := model;
      this.systemInstruction := systemInstruction;
    }
  }

  /** `ai.chats.create`: a new session, distinct from every existing one, remembering its instruction. */
  method CreateChat(systemInstruction: string) returns (chat: Session)
    ensures fresh(chat)
    ensures chat.model == ModelName && chat.systemInstruction == systemInstruction
  {
    chat := new Session(ModelName, systemInstruction);
  }

  /** The `chatSessions` map. */
  class SessionRegistry {
    var sessions: map<string, Session>

    /** Different panel ids are bound to different sessions, so no two panels share a history. */
    ghost predicate Valid()
      reads this
    {
      forall a, b :: a in sessions && b in sessions && a != b ==> sessions[a] != sessions[b]
    }

    constructor ()
      ensures sessions == map[] && Valid()
    {
      sessions := map[];
    }

    /**
     * `getChatSession`: the session stored for `panelId`, created with
     * `systemInstruction` on the first call for that id. Later calls return the
     * stored session and ignore their instruction; no entry is ever removed or
     * replaced, and other ids' entries are untouched.
     */
    method GetChatSession(panelId: string, systemInstruction: string) returns (chat: Session)
      requires Valid()
      modifies this
      ensures Valid()
      ensures panelId in sessions && chat == sessions[panelId]
      ensures panelId in old(sessions) ==> sessions == old(sessions)
      ensures panelId !in old(sessions) ==>
        fresh(chat) && chat.model == ModelName && chat.systemInstruction == systemInstruction &&
        sessions == old(sessions)[panelId := chat]
    {
      if panelId !in sessions {
        var created := CreateChat(systemInstruction);
        sessions := sessions[panelId := created];
      }
      chat := sessions[panelId];
    }

    /** Two calls with the same id return the same session, configured by the first call ever made for it. */
    method GetChatSessionTwice(panelId: string, first: string, second: string) returns (a: Session, b: Session)
      requires Valid()
      modifies this
      ensures Valid() && a == b
      ensures panelId !in old(sessions) ==> a.systemInstruction == first
      ensures panelId in old(sessions) ==> a == old(sessions[panelId]) && sessions == old(sessions)
    {
      a := GetChatSession(panelId, first);
      b := GetChatSession(panelId, second);
    }
  }
}
