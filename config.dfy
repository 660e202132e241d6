/**
 * The part of `AppConfig` (src/config.rs) the handlers read: the two
 * configured Discord users and their nicknames.
 */
module Config {

  datatype AppConfig = AppConfig(
    userId1: string,
    userId2: string,
    nickname1: string,
    nickname2: string)
}
