/** The RCON console connection (`Interface` in src/interface.rs). Its `exec`
    and `player_list` bodies are not part of this model: the server's answers
    come from an oracle fixed at construction, and every command sent is logged. */
module Console {

  import opened Wrappers

  /** The three error kinds of `rcon::Error`. */
  datatype ExecError = Auth | CommandTooLong | Io

  /** What the server answers to a command, given every command sent before it. */
  type Responder = (seq<string>, string) -> Result<string, ExecError>

  class Interface {
    const address: string
    const password: string
    const respond: Responder
    /** Every command sent over this connection, oldest first. */
    var sent: seq<string>

    constructor (address: string, password: string, respond: Responder)
      ensures this.address == address && this.password == password
      ensures this.respond == respond && sent == []
    {
      this.address := address;
      this.password := password;
      this.respond := respond;
      sent := [];
    }

    /** `Interface::exec`: send one command and return the server's answer. */
    method Exec(cmd: string) returns (r: Result<string, ExecError>)
      modifies this
      ensures sent == old(sent) + [cmd]
      ensures r == respond(old(sent), cmd)
    {
      r := respond(sent, cmd);
      sent := sent + [cmd];
    }
  }
}
