/** The shared types of the application (types.ts) and the panels' fixed identifiers. */
module Types {

  /** `PanelType`: the four panels, exactly one of which is shown. */
  datatype PanelType = Home | CodeCreator | Kali | Terminal

  /** The two authors of a chat turn. */
  datatype Role = User | Model

  /** `ChatMessage`: one turn of the on-screen conversation. */
  datatype ChatMessage = ChatMessage(role: Role, content: string)

  /** The `panelId` each panel hands to its chat: the key of its remote session. */
  function PanelId(p: PanelType): string {
    match p
    case Home => "home"
    case CodeCreator => "code_creator"
    case Kali => "kali"
    case Terminal => "terminal"
  }

  /** Different panels never share a session key. */
  lemma PanelIdInjective(p: PanelType, q: PanelType)
    requires p != q
    ensures PanelId(p) != PanelId(q)
  {
  }
}
