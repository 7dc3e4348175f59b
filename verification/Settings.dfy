// The client entries an inbound keeps in its settings, and the key each protocol uses to
// find one of them.

module Settings {

  datatype Protocol = Trojan | Shadowsocks | Hysteria | Other

  datatype Client = Client(email: string, id: string, password: string, auth: string,
                           flow: string, subId: string, enable: bool, expiryTime: int)

  function Key(p: Protocol, c: Client): string {
    match p
    case Trojan => c.password
    case Shadowsocks => c.email
    case Hysteria => c.auth
    case Other => c.id
  }
}
